/** The idempotency key of one queued outbound message. */
module DedupeKey {
  import opened Prelude
  import opened Decimal
  import opened CanonicalJson
  import opened Text

  const MAX_KEY_LENGTH := 200
  const PAYLOAD_HASH_LENGTH := 32
  const ADDRESS_HASH_LENGTH := 16

  predicate IsHex(s: string) {
    forall i :: 0 <= i < |s| ==> '0' <= s[i] <= '9' || 'a' <= s[i] <= 'f'
  }

  /** All that is assumed of SHA-256: a digest prints as 64 hex characters. */
  ghost predicate IsDigest(sha: string -> string) {
    forall s :: |sha(s)| == 64 && IsHex(sha(s))
  }

  /** Who the key is for: an account, or a bare address known by its digest. */
  datatype RecipientRef = User(id: int) | Address(digest: string)

  function RefText(r: RecipientRef): string {
    match r
    case User(id) => ['u'] + IntText(id)
    case Address(digest) => ['a'] + digest
  }

  function PayloadHash(sha: string -> string, data: Json): string
    requires IsDigest(sha)
  {
    sha(Canonical(data))[..PAYLOAD_HASH_LENGTH]
  }

  /** The account wins over the address; an absent address digests as the empty text. */
  function RefOf(sha: string -> string, lower: string -> string, idUser: Option<int>, recipient: Option<string>): RecipientRef
    requires IsDigest(sha)
  {
    match idUser
    case Some(id) => User(id)
    case None =>
      var address := match recipient case Some(a) => a case None => "";
      Address(sha(lower(Strip(address)))[..ADDRESS_HASH_LENGTH])
  }

  function Joined(c: string, k: string, r: string, h: string): string {
    c + [':'] + k + [':'] + r + [':'] + h
  }

  function DerivedKey(channel: int, kind: string, ref: RecipientRef, hash: string): string {
    Joined(IntText(channel), kind, RefText(ref), hash)
  }

  function BuildDedupeKey(
    sha: string -> string, lower: string -> string, channel: int, kind: string, data: Json,
    idUser: Option<int>, recipient: Option<string>, override: Option<string>): string
    requires IsDigest(sha)
  {
    if override.Some? && override.value != "" then
      if |override.value| <= MAX_KEY_LENGTH then override.value else override.value[..MAX_KEY_LENGTH]
    else
      DerivedKey(channel, kind, RefOf(sha, lower, idUser, recipient), PayloadHash(sha, data))
  }

  /** What a preference row is matched on: the type up to, and without, its first dot. */
  function TypePrefixOf(kind: string): (head: string)
    ensures '.' !in head && head <= kind
    ensures head != kind ==> kind[|head|] == '.'
  {
    if kind == "" || kind[0] == '.' then "" else [kind[0]] + TypePrefixOf(kind[1..])
  }

  // ---- reading a key back -------------------------------------------------

  function FirstColon(s: string): (i: nat)
    ensures i <= |s|
  {
    if s == "" || s[0] == ':' then 0 else 1 + FirstColon(s[1..])
  }

  function LastColon(s: string): (i: nat)
    ensures i <= |s|
    ensures s != "" ==> i < |s|
  {
    if |s| <= 1 || s[|s| - 1] == ':' then (if s == "" then 0 else |s| - 1) else LastColon(s[..|s| - 1])
  }

  datatype KeyParts = KeyParts(channel: string, kind: string, ref: string, hash: string)

  /** The channel ends at the first colon, the hash and the reference start after the last two. */
  function DecodeKey(key: string): Option<KeyParts> {
    var i, k := FirstColon(key), LastColon(key);
    if k == 0 then None
    else
      var j := LastColon(key[..k]);
      if i < j then Some(KeyParts(key[..i], key[i + 1..j], key[j + 1..k], key[k + 1..])) else None
  }

  lemma {:induction false} FirstColonAt(a: string, b: string)
    requires ':' !in a
    ensures FirstColon(a + [':'] + b) == |a|
  {
    var s := a + [':'] + b;
    if a != "" {
      assert s[0] == a[0] && s[1..] == a[1..] + [':'] + b;
      FirstColonAt(a[1..], b);
    }
  }

  lemma {:induction false} LastColonAt(a: string, b: string)
    requires ':' !in b
    ensures LastColon(a + [':'] + b) == |a|
  {
    var s := a + [':'] + b;
    if b != "" {
      assert s[|s| - 1] == b[|b| - 1] && s[..|s| - 1] == a + [':'] + b[..|b| - 1];
      LastColonAt(a, b[..|b| - 1]);
    }
  }

  predicate RefOk(r: RecipientRef) { r.Address? ==> IsHex(r.digest) }

  lemma HasNoColon(channel: int, ref: RecipientRef, hash: string)
    requires IsHex(hash) && RefOk(ref)
    ensures ':' !in IntText(channel) && ':' !in RefText(ref) && ':' !in hash
  {
    assert IsNumberChar(':') == false;
  }

  lemma JoinedColons(c: string, k: string, r: string, h: string)
    requires ':' !in c && ':' !in r && ':' !in h
    ensures var key := Joined(c, k, r, h);
            && FirstColon(key) == |c|
            && LastColon(key) == |c| + |k| + |r| + 2
            && LastColon(key[..|c| + |k| + |r| + 2]) == |c| + |k| + 1
  {
    var key := Joined(c, k, r, h);
    assert key == c + [':'] + (k + [':'] + r + [':'] + h);
    FirstColonAt(c, k + [':'] + r + [':'] + h);
    var front := c + [':'] + k + [':'] + r;
    LastColonAt(front, h);
    assert key[..|front|] == front;
    LastColonAt(c + [':'] + k, r);
  }

  lemma JoinedSlices(c: string, k: string, r: string, h: string)
    ensures var key := Joined(c, k, r, h);
            var i, j, l := |c|, |c| + |k| + 1, |c| + |k| + |r| + 2;
            key[..i] == c && key[i + 1..j] == k && key[j + 1..l] == r && key[l + 1..] == h
  {
  }

  lemma JoinedDecodes(c: string, k: string, r: string, h: string)
    requires ':' !in c && ':' !in r && ':' !in h
    ensures DecodeKey(Joined(c, k, r, h)) == Some(KeyParts(c, k, r, h))
  {
    JoinedColons(c, k, r, h);
    JoinedSlices(c, k, r, h);
  }

  /** Whatever the type contains, colons included, the four parts can be read back. */
  lemma DerivedKeyDecodes(channel: int, kind: string, ref: RecipientRef, hash: string)
    requires IsHex(hash) && RefOk(ref)
    ensures DecodeKey(DerivedKey(channel, kind, ref, hash))
         == Some(KeyParts(IntText(channel), kind, RefText(ref), hash))
  {
    HasNoColon(channel, ref, hash);
    JoinedDecodes(IntText(channel), kind, RefText(ref), hash);
  }

  /** Equal derived keys agree on channel, type, recipient (in the same namespace) and payload hash. */
  lemma DerivedKeyInjective(c1: int, k1: string, r1: RecipientRef, h1: string,
                            c2: int, k2: string, r2: RecipientRef, h2: string)
    requires IsHex(h1) && RefOk(r1) && IsHex(h2) && RefOk(r2)
    requires DerivedKey(c1, k1, r1, h1) == DerivedKey(c2, k2, r2, h2)
    ensures c1 == c2 && k1 == k2 && r1 == r2 && h1 == h2
  {
    DerivedKeyDecodes(c1, k1, r1, h1);
    DerivedKeyDecodes(c2, k2, r2, h2);
    IntTextInjective(c1, c2);
    assert RefText(r1)[0] == RefText(r2)[0];
    assert RefText(r1)[1..] == RefText(r2)[1..];
    if r1.User? {
      assert RefText(r1)[1..] == IntText(r1.id) && RefText(r2)[1..] == IntText(r2.id);
      IntTextInjective(r1.id, r2.id);
    } else {
      assert RefText(r1)[1..] == r1.digest && RefText(r2)[1..] == r2.digest;
    }
  }

  /**
   * When the two payload digests do not collide, two account-ful sends share a key exactly when
   * they are the same channel, type and user carrying data that means the same.
   */
  lemma SendsCollapseIffSameData(sha: string -> string, lower: string -> string,
                                 c1: int, k1: string, d1: Json, u1: int, c2: int, k2: string, d2: Json, u2: int)
    requires IsDigest(sha) && WellFormed(d1) && WellFormed(d2)
    requires PayloadHash(sha, d1) == PayloadHash(sha, d2) ==> Canonical(d1) == Canonical(d2)
    ensures BuildDedupeKey(sha, lower, c1, k1, d1, Some(u1), None, None)
            == BuildDedupeKey(sha, lower, c2, k2, d2, Some(u2), None, None)
       <==> (c1 == c2 && k1 == k2 && u1 == u2 && Meaning(d1) == Meaning(d2))
  {
    CanonicalIffSameMeaning(d1, d2);
    var h1, h2 := PayloadHash(sha, d1), PayloadHash(sha, d2);
    if DerivedKey(c1, k1, User(u1), h1) == DerivedKey(c2, k2, User(u2), h2) {
      DerivedKeyInjective(c1, k1, User(u1), h1, c2, k2, User(u2), h2);
    }
  }

  /** Different users never share a derived key, whatever their payloads and the digest do. */
  lemma UserKeysDistinct(sha: string -> string, lower: string -> string, channel: int, kind: string, data: Json, u: int, v: int)
    requires IsDigest(sha) && u != v
    ensures BuildDedupeKey(sha, lower, channel, kind, data, Some(u), None, None)
         != BuildDedupeKey(sha, lower, channel, kind, data, Some(v), None, None)
  {
    var h := PayloadHash(sha, data);
    if DerivedKey(channel, kind, User(u), h) == DerivedKey(channel, kind, User(v), h) {
      DerivedKeyInjective(channel, kind, User(u), h, channel, kind, User(v), h);
    }
  }

  /** Keys fit VARCHAR(200): at most 175 characters for an account, at most 181 for an address. */
  lemma DerivedKeyLength(sha: string -> string, lower: string -> string, channel: int, kind: string, data: Json,
                         idUser: Option<int>, recipient: Option<string>)
    requires IsDigest(sha)
    requires 0 <= channel < 10 && |kind| <= 128
    requires idUser.Some? ==> 0 <= idUser.value < 10_000_000_000
    ensures var key := BuildDedupeKey(sha, lower, channel, kind, data, idUser, recipient, None);
            && (idUser.Some? ==> |key| <= |kind| + 47 <= 175)
            && (idUser.None? ==> |key| == |kind| + 53 <= 181)
            && |key| <= MAX_KEY_LENGTH
  {
    assert |IntText(channel)| == 1;
    if idUser.Some? {
      assert Pow10(10) == 10_000_000_000 by {
        assert Pow10(4) == 10_000;
        assert Pow10(7) == 10_000_000;
      }
      NatTextLength(idUser.value, 10);
    }
  }

  /** An override is shared by every recipient, so it queues one row for a whole audience. */
  lemma OverrideIgnoresRecipient(sha: string -> string, lower: string -> string, channel: int, kind: string, data: Json,
                                 u: int, v: int, override: string)
    requires IsDigest(sha)
    ensures BuildDedupeKey(sha, lower, channel, kind, data, Some(u), None, Some(override))
         == BuildDedupeKey(sha, lower, channel, kind, data, Some(v), None, Some(override))
       <==> (override != "" || u == v)
  {
    if override == "" && u != v {
      UserKeysDistinct(sha, lower, channel, kind, data, u, v);
    }
  }
}
