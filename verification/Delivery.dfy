/** What one publish delivers, to whom, and what repeating it does. */
module Delivery {
  import opened Prelude
  import opened Text
  import opened CanonicalJson
  import opened DedupeKey
  import opened CrmTables

  /** The two text functions the layer takes from its libraries. */
  datatype Library = Library(sha: string -> string, lower: string -> string)

  // ---- audience -----------------------------------------------------------

  /** `app_user.auth_user_id` is unique. */
  ghost predicate AuthIdsUnique(dir: Directory) {
    forall u, w :: u in dir.users && w in dir.users && dir.users[u].authId == dir.users[w].authId ==> u == w
  }

  function UsersNamed(dir: Directory, authId: string): set<int> {
    set u | u in dir.users && dir.users[u].authId == authId
  }

  predicate Excluded(dir: Directory, excludeAuthId: Option<string>, user: int) {
    excludeAuthId.Some? && excludeAuthId.value != "" && user in UsersNamed(dir, excludeAuthId.value)
  }

  predicate RoleWanted(roles: Option<seq<string>>, role: string) {
    roles.None? || roles.value == [] || role in roles.value
  }

  /** The members a community target reaches. */
  function Reached(dir: Directory, community: int, roles: Option<seq<string>>, excludeAuthId: Option<string>): set<int> {
    set k | k in dir.members && k.community == community && RoleWanted(roles, dir.members[k])
            && !Excluded(dir, excludeAuthId, k.user) :: k.user
  }

  /** The recipients of a target, in an order the database may choose for a community. */
  ghost predicate IsAudience(dir: Directory, target: Target, recipients: seq<int>) {
    match target
    case UserTarget(user, _) => recipients == [user]
    case UsersTarget(users, _) => recipients == Dedupe(users)
    case CommunityTarget(id, roles, exclude) => Enumerates(recipients, Reached(dir, id, roles, exclude))
  }

  function SourceCommunity(target: Target): Option<int> {
    match target
    case UserTarget(_, community) => community
    case UsersTarget(_, community) => community
    case CommunityTarget(id, _, _) => Some(id)
  }

  /** Nobody is addressed twice, and the excluded author is not addressed at all. */
  lemma AudienceIsDistinct(dir: Directory, target: Target, recipients: seq<int>)
    requires IsAudience(dir, target, recipients)
    ensures NoDuplicates(recipients)
    ensures target.CommunityTarget? ==> forall u :: u in recipients ==> !Excluded(dir, target.excludeAuthId, u)
  {
    if target.CommunityTarget? {
      forall u | u in recipients ensures !Excluded(dir, target.excludeAuthId, u) {
        assert u in Reached(dir, target.id, target.roles, target.excludeAuthId);
      }
    }
  }

  // ---- preferences --------------------------------------------------------

  /** Most specific row wins; no row, no preference. */
  function ResolvedMode(dir: Directory, user: int, prefix: string, channel: Channel): Option<int> {
    if PreferenceKey(user, prefix, channel) in dir.preferences then Some(dir.preferences[PreferenceKey(user, prefix, channel)])
    else if PreferenceKey(user, "", channel) in dir.preferences then Some(dir.preferences[PreferenceKey(user, "", channel)])
    else None
  }

  /**
   * The rows decide: a row of the user for this prefix and channel settles it, whatever the
   * default row says; without one the default row does; mode 3 is off.
   */
  predicate SwitchedOff(dir: Directory, user: int, prefix: string, channel: Channel) {
    var own, general := PreferenceKey(user, prefix, channel), PreferenceKey(user, "", channel);
    || (own in dir.preferences && dir.preferences[own] == 3)
    || (own !in dir.preferences && general in dir.preferences && dir.preferences[general] == 3)
  }

  lemma ModeFromRows(dir: Directory, user: int, prefix: string, channel: Channel)
    ensures ResolvedMode(dir, user, prefix, channel) == Some(MODE_OFF) <==> SwitchedOff(dir, user, prefix, channel)
    ensures PreferenceKey(user, prefix, channel) in dir.preferences ==>
              ResolvedMode(dir, user, prefix, channel) == Some(dir.preferences[PreferenceKey(user, prefix, channel)])
    ensures PreferenceKey(user, prefix, channel) !in dir.preferences && PreferenceKey(user, "", channel) in dir.preferences ==>
              ResolvedMode(dir, user, prefix, channel) == Some(dir.preferences[PreferenceKey(user, "", channel)])
    ensures ResolvedMode(dir, user, prefix, channel).None? <==>
              PreferenceKey(user, prefix, channel) !in dir.preferences && PreferenceKey(user, "", channel) !in dir.preferences
  {
  }

  /** What is requested, minus what this recipient has switched off; nothing is switched off for TRANSACTIONAL. */
  function Effective(dir: Directory, pub: Publication, user: int): set<Channel> {
    set c | c in pub.channels
            && (pub.category == Transactional || ResolvedMode(dir, user, TypePrefixOf(pub.kind), c) != Some(MODE_OFF))
  }

  function Through(dir: Directory, pub: Publication, recipients: seq<int>, channel: Channel): seq<int> {
    if recipients == [] then []
    else
      var tail := Through(dir, pub, recipients[1..], channel);
      if channel in Effective(dir, pub, recipients[0]) then [recipients[0]] + tail else tail
  }

  lemma {:induction false} ThroughElements(dir: Directory, pub: Publication, recipients: seq<int>, channel: Channel)
    ensures forall u :: u in Through(dir, pub, recipients, channel) <==> u in recipients && channel in Effective(dir, pub, u)
    ensures NoDuplicates(recipients) ==> NoDuplicates(Through(dir, pub, recipients, channel))
  {
    if recipients != [] {
      ThroughElements(dir, pub, recipients[1..], channel);
      assert recipients == [recipients[0]] + recipients[1..];
      if NoDuplicates(recipients) {
        assert forall i :: 0 <= i < |recipients[1..]| ==> recipients[1..][i] == recipients[i + 1] != recipients[0];
        assert recipients[0] !in recipients[1..];
      }
    }
  }

  // ---- rows ---------------------------------------------------------------

  function Payload(pub: Publication): Json {
    match pub.data case Some(d) => d case None => Obj([])
  }

  function NewNotifications(first: int, users: seq<int>, pub: Publication): (rows: seq<Notification>)
    ensures |rows| == |users|
  {
    seq(|users|, i requires 0 <= i < |users| =>
      Notification(first + i, SourceCommunity(pub.target), users[i], pub.kind, Payload(pub)))
  }

  /** The id of the last row a user has among the new ones, as a dictionary filled in order gives it. */
  function NotificationFor(rows: seq<Notification>, user: int): Option<int> {
    if rows == [] then None
    else if rows[|rows| - 1].user == user then Some(rows[|rows| - 1].id)
    else NotificationFor(rows[..|rows| - 1], user)
  }

  function JoinNames(first: Option<string>, last: Option<string>): Option<string> {
    var f := if first.Some? && Strip(first.value) != "" then first.value else "";
    var l := if last.Some? && Strip(last.value) != "" then last.value else "";
    if f == "" && l == "" then None
    else if f == "" then Some(l)
    else if l == "" then Some(f)
    else Some(f + " " + l)
  }

  /** An address that could break out of a mail header is never queued. */
  predicate Usable(address: string) { address != "" && '\r' !in address && '\n' !in address }

  predicate Addressable(dir: Directory, user: int) {
    user in dir.users && Usable(Strip(dir.users[user].email))
  }

  function KeyFor(lib: Library, pub: Publication, user: int): string
    requires IsDigest(lib.sha)
  {
    BuildDedupeKey(lib.sha, lib.lower, ChannelCode(Email), pub.kind, Payload(pub), Some(user), None, pub.dedupeKey)
  }

  /** What is known about an addressee, copied when the message is queued. */
  datatype Contact = Contact(email: string, locale: Option<string>, displayName: Option<string>)

  function ContactOf(user: AppUser): Contact {
    Contact(user.email, user.locale, JoinNames(user.firstName, user.lastName))
  }

  function MessageFor(dir: Directory, lib: Library, pub: Publication, rows: seq<Notification>, user: int): Message
    requires IsDigest(lib.sha) && user in dir.users
  {
    var contact := ContactOf(dir.users[user]);
    Message(NotificationFor(rows, user), SourceCommunity(pub.target), Email, Strip(contact.email),
            contact.displayName,
            match contact.locale case Some(l) => l case None => "",
            pub.kind, pub.category, Payload(pub), KeyFor(lib, pub, user))
  }

  /** One queued row per addressee with a usable contact; the others are skipped. */
  function Candidates(dir: Directory, lib: Library, pub: Publication, rows: seq<Notification>, users: seq<int>): seq<Message>
    requires IsDigest(lib.sha)
  {
    if users == [] then []
    else
      var tail := Candidates(dir, lib, pub, rows, users[1..]);
      if Addressable(dir, users[0]) then [MessageFor(dir, lib, pub, rows, users[0])] + tail else tail
  }

  predicate HasKey(messages: seq<Message>, key: string) {
    exists i :: 0 <= i < |messages| && messages[i].dedupeKey == key
  }

  /** ON CONFLICT (dedupe_key) DO NOTHING, row by row. */
  function InsertNew(messages: seq<Message>, rows: seq<Message>): (r: seq<Message>)
    ensures messages <= r
    decreases |rows|
  {
    if rows == [] then messages
    else InsertNew(if HasKey(messages, rows[0].dedupeKey) then messages else messages + [rows[0]], rows[1..])
  }

  ghost predicate KeysDistinct(messages: seq<Message>) {
    forall i, j :: 0 <= i < j < |messages| ==> messages[i].dedupeKey != messages[j].dedupeKey
  }

  // ---- one publish --------------------------------------------------------

  datatype Plan = Plan(inApp: seq<int>, byEmail: seq<int>, rows: seq<Notification>, candidates: seq<Message>)

  function PlanOf(dir: Directory, lib: Library, pub: Publication, first: int, recipients: seq<int>): Plan
    requires IsDigest(lib.sha)
  {
    var inApp := Through(dir, pub, recipients, InApp);
    var byEmail := Through(dir, pub, recipients, Email);
    var rows := NewNotifications(first, inApp, pub);
    Plan(inApp, byEmail, rows, Candidates(dir, lib, pub, rows, byEmail))
  }

  predicate Empty(plan: Plan) { plan.inApp == [] && plan.byEmail == [] }

  function Delivered(outbox: Outbox, plan: Plan): Outbox {
    outbox.(notifications := outbox.notifications + plan.rows, messages := InsertNew(outbox.messages, plan.candidates))
  }

  /** Everything a publish can change. */
  datatype State = State(committed: Outbox, outbox: Outbox, next: nat, aborted: bool, pending: seq<Hint>, emitted: seq<Hint>)

  function AudienceCalls(target: Target): set<CrmCall> {
    if !target.CommunityTarget? then {}
    else if target.excludeAuthId.Some? && target.excludeAuthId.value != "" then {ResolveUser, FindMembers}
    else {FindMembers}
  }

  function PreferenceCalls(pub: Publication, recipients: seq<int>): set<CrmCall> {
    if recipients != [] && pub.category == Informational then {FindPreferences} else {}
  }

  /** The calls made before the savepoint protects the transaction ... */
  function CallsOutside(pub: Publication, recipients: seq<int>, plan: Plan): set<CrmCall> {
    AudienceCalls(pub.target) + PreferenceCalls(pub, recipients) + (if Empty(plan) then {} else {OpenSavepoint})
  }

  /** ... and under it. */
  function CallsInside(plan: Plan): set<CrmCall> {
    if Empty(plan) then {}
    else
      (if plan.inApp == [] then {} else {InsertNotifications})
      + (if plan.byEmail == [] then {} else {FindContacts})
      + (if plan.candidates == [] then {} else {InsertOutbound})
      + {ReleaseSavepoint}
  }

  /** Whether a publish lands: something to deliver, and no call of it fails. */
  predicate Lands(s: State, pub: Publication, recipients: seq<int>, plan: Plan, failing: set<CrmCall>) {
    && !Empty(plan) && !s.aborted
    && failing * (CallsOutside(pub, recipients, plan) + CallsInside(plan)) == {}
  }

  /** How many identity values the notification counter moves, landed or not. */
  function Drawn(s: State, pub: Publication, recipients: seq<int>, plan: Plan, failing: set<CrmCall>): nat {
    if s.aborted || failing * CallsOutside(pub, recipients, plan) != {} || InsertNotifications in failing then 0
    else |plan.inApp|
  }

  /** All or nothing: the rows and the hint of a publish that lands, or the state as it was. */
  function Published(dir: Directory, lib: Library, s: State, pub: Publication, recipients: seq<int>, failing: set<CrmCall>): (State, nat)
    requires IsDigest(lib.sha)
  {
    var plan := PlanOf(dir, lib, pub, s.next, recipients);
    var next := s.next + Drawn(s, pub, recipients, plan, failing);
    if Lands(s, pub, recipients, plan, failing) then
      (s.(outbox := Delivered(s.outbox, plan), next := next,
          pending := if plan.inApp == [] then s.pending else s.pending + [Hint(plan.inApp, SourceCommunity(pub.target))]),
       |plan.rows|)
    else
      (s.(next := next,
          aborted := s.aborted || failing * CallsOutside(pub, recipients, plan) != {}
                     || (failing * CallsInside(plan) != {} && RollbackToSavepoint in failing)), 0)
  }

  /** What the writes under an open savepoint leave behind. */
  function Written(s: State, pub: Publication, plan: Plan, failing: set<CrmCall>): (State, nat) {
    var next := s.next + if InsertNotifications in failing then 0 else |plan.inApp|;
    if failing * CallsInside(plan) == {} then
      (s.(outbox := Delivered(s.outbox, plan), next := next,
          pending := if plan.inApp == [] then s.pending else s.pending + [Hint(plan.inApp, SourceCommunity(pub.target))]),
       |plan.rows|)
    else
      (s.(next := next, aborted := RollbackToSavepoint in failing), 0)
  }

  function Flushed(s: State): State {
    s.(pending := [], emitted := s.emitted + s.pending)
  }

  /** A call failing before the savepoint is open leaves the transaction aborted and nothing staged. */
  lemma FailedOutside(dir: Directory, lib: Library, s: State, pub: Publication, recipients: seq<int>,
                      failing: set<CrmCall>, calls: set<CrmCall>)
    requires IsDigest(lib.sha)
    requires calls <= CallsOutside(pub, recipients, PlanOf(dir, lib, pub, s.next, recipients))
    requires s.aborted || failing * calls != {}
    ensures Published(dir, lib, s, pub, recipients, failing) == (s.(aborted := true), 0)
  {
    var outside := CallsOutside(pub, recipients, PlanOf(dir, lib, pub, s.next, recipients));
    assert failing * calls <= failing * outside;
  }

  lemma NothingToDeliver(dir: Directory, lib: Library, s: State, pub: Publication, recipients: seq<int>, failing: set<CrmCall>)
    requires IsDigest(lib.sha)
    requires Empty(PlanOf(dir, lib, pub, s.next, recipients))
    requires failing * (AudienceCalls(pub.target) + PreferenceCalls(pub, recipients)) == {}
    ensures Published(dir, lib, s, pub, recipients, failing) == (s, 0)
  {
    var plan := PlanOf(dir, lib, pub, s.next, recipients);
    assert CallsOutside(pub, recipients, plan) == AudienceCalls(pub.target) + PreferenceCalls(pub, recipients);
    assert CallsInside(plan) == {};
  }

  lemma OpenedThenWritten(dir: Directory, lib: Library, s: State, pub: Publication, recipients: seq<int>, failing: set<CrmCall>)
    requires IsDigest(lib.sha) && !s.aborted
    requires failing * CallsOutside(pub, recipients, PlanOf(dir, lib, pub, s.next, recipients)) == {}
    requires !Empty(PlanOf(dir, lib, pub, s.next, recipients))
    ensures Published(dir, lib, s, pub, recipients, failing)
            == Written(s, pub, PlanOf(dir, lib, pub, s.next, recipients), failing)
  {
    var plan := PlanOf(dir, lib, pub, s.next, recipients);
    var outside, inside := CallsOutside(pub, recipients, plan), CallsInside(plan);
    assert failing * (outside + inside) == failing * outside + failing * inside;
  }

  // ---- exact delivery -----------------------------------------------------

  lemma {:induction false} NotificationForSound(first: int, users: seq<int>, pub: Publication, i: nat)
    requires NoDuplicates(users) && i < |users|
    ensures NotificationFor(NewNotifications(first, users, pub), users[i]) == Some(first + i)
    decreases |users|
  {
    var rows := NewNotifications(first, users, pub);
    var n := |users| - 1;
    if i < n {
      assert rows[..n] == NewNotifications(first, users[..n], pub);
      NotificationForSound(first, users[..n], pub, i);
    }
  }

  lemma {:induction false} NotificationForAbsent(rows: seq<Notification>, user: int)
    requires forall i :: 0 <= i < |rows| ==> rows[i].user != user
    ensures NotificationFor(rows, user) == None
  {
    if rows != [] {
      NotificationForAbsent(rows[..|rows| - 1], user);
    }
  }

  /** The candidates are exactly the addressable users, each once, in order. */
  lemma {:induction false} CandidatesExact(dir: Directory, lib: Library, pub: Publication, rows: seq<Notification>, users: seq<int>, m: Message)
    requires IsDigest(lib.sha)
    ensures m in Candidates(dir, lib, pub, rows, users)
       <==> exists u :: u in users && Addressable(dir, u) && m == MessageFor(dir, lib, pub, rows, u)
  {
    if users != [] {
      CandidatesExact(dir, lib, pub, rows, users[1..], m);
      assert users == [users[0]] + users[1..];
      var tail := Candidates(dir, lib, pub, rows, users[1..]);
      if Addressable(dir, users[0]) {
        assert m in [MessageFor(dir, lib, pub, rows, users[0])] + tail <==> m == MessageFor(dir, lib, pub, rows, users[0]) || m in tail;
      }
    }
  }

  /** In-app rows go to exactly the recipients whose effective channels contain INAPP, one each. */
  lemma InAppExact(dir: Directory, lib: Library, pub: Publication, first: int, recipients: seq<int>)
    requires IsDigest(lib.sha) && IsAudience(dir, pub.target, recipients)
    ensures var plan := PlanOf(dir, lib, pub, first, recipients);
            && NoDuplicates(plan.inApp)
            && (forall u :: u in plan.inApp <==> u in recipients && InApp in Effective(dir, pub, u))
            && |plan.rows| == |plan.inApp|
            && (forall i :: 0 <= i < |plan.rows| ==>
                  plan.rows[i] == Notification(first + i, SourceCommunity(pub.target), plan.inApp[i], pub.kind, Payload(pub)))
  {
    AudienceIsDistinct(dir, pub.target, recipients);
    ThroughElements(dir, pub, recipients, InApp);
  }

  /**
   * Every EMAIL recipient with a usable contact has exactly one candidate, linked to that
   * recipient's own new notification, or to none if that recipient gets no in-app row.
   */
  lemma EmailExact(dir: Directory, lib: Library, pub: Publication, first: int, recipients: seq<int>, m: Message)
    requires IsDigest(lib.sha) && IsAudience(dir, pub.target, recipients)
    ensures var plan := PlanOf(dir, lib, pub, first, recipients);
            m in plan.candidates <==> exists u :: EmailedAs(dir, lib, pub, first, recipients, u, m)
  {
    var plan := PlanOf(dir, lib, pub, first, recipients);
    CandidatesExact(dir, lib, pub, plan.rows, plan.byEmail, m);
    ThroughElements(dir, pub, recipients, Email);
    forall u | u in recipients ensures NotificationFor(plan.rows, u) == LinkFor(dir, pub, first, recipients, u) {
      LinkExact(dir, lib, pub, first, recipients, u);
    }
    forall u ensures EmailedAs(dir, lib, pub, first, recipients, u, m)
                <==> u in plan.byEmail && Addressable(dir, u) && m == MessageFor(dir, lib, pub, plan.rows, u) {}
  }

  /** The id of the user's own in-app row in this publish, if there is one. */
  ghost function LinkFor(dir: Directory, pub: Publication, first: int, recipients: seq<int>, u: int): Option<int> {
    var inApp := Through(dir, pub, recipients, InApp);
    if u in inApp then var i :| 0 <= i < |inApp| && inApp[i] == u; Some(first + i) else None
  }

  ghost predicate EmailedAs(dir: Directory, lib: Library, pub: Publication, first: int, recipients: seq<int>, u: int, m: Message)
    requires IsDigest(lib.sha)
  {
    && u in recipients && Email in Effective(dir, pub, u) && Addressable(dir, u)
    && m.notification == LinkFor(dir, pub, first, recipients, u)
    && m.recipient == Strip(dir.users[u].email) && m.dedupeKey == KeyFor(lib, pub, u)
    && m == MessageFor(dir, lib, pub, [], u).(notification := m.notification)
  }

  lemma LinkExact(dir: Directory, lib: Library, pub: Publication, first: int, recipients: seq<int>, u: int)
    requires IsDigest(lib.sha) && IsAudience(dir, pub.target, recipients)
    ensures NotificationFor(PlanOf(dir, lib, pub, first, recipients).rows, u) == LinkFor(dir, pub, first, recipients, u)
  {
    InAppExact(dir, lib, pub, first, recipients);
    var inApp := Through(dir, pub, recipients, InApp);
    if u in inApp {
      var i :| 0 <= i < |inApp| && inApp[i] == u && LinkFor(dir, pub, first, recipients, u) == Some(first + i);
      NotificationForSound(first, inApp, pub, i);
    } else {
      NotificationForAbsent(NewNotifications(first, inApp, pub), u);
    }
  }

  // ---- the outbound table -------------------------------------------------

  lemma {:induction false} InsertKeepsDistinct(messages: seq<Message>, rows: seq<Message>)
    requires KeysDistinct(messages)
    ensures KeysDistinct(InsertNew(messages, rows))
    decreases |rows|
  {
    if rows != [] {
      InsertKeepsDistinct(if HasKey(messages, rows[0].dedupeKey) then messages else messages + [rows[0]], rows[1..]);
    }
  }

  lemma HasKeyGrows(messages: seq<Message>, longer: seq<Message>, key: string)
    requires messages <= longer && HasKey(messages, key)
    ensures HasKey(longer, key)
  {
    var i :| 0 <= i < |messages| && messages[i].dedupeKey == key;
    assert longer[i] == messages[i];
  }

  lemma {:induction false} InsertedHaveKeys(messages: seq<Message>, rows: seq<Message>, i: nat)
    requires i < |rows|
    ensures HasKey(InsertNew(messages, rows), rows[i].dedupeKey)
    decreases |rows|
  {
    var more := if HasKey(messages, rows[0].dedupeKey) then messages else messages + [rows[0]];
    if i == 0 {
      if !HasKey(messages, rows[0].dedupeKey) { assert more[|messages|] == rows[0]; }
      HasKeyGrows(more, InsertNew(more, rows[1..]), rows[0].dedupeKey);
    } else {
      InsertedHaveKeys(more, rows[1..], i - 1);
    }
  }

  lemma {:induction false} InsertNothing(messages: seq<Message>, rows: seq<Message>)
    requires forall i :: 0 <= i < |rows| ==> HasKey(messages, rows[i].dedupeKey)
    ensures InsertNew(messages, rows) == messages
    decreases |rows|
  {
    if rows != [] {
      forall i | 0 <= i < |rows[1..]| ensures HasKey(messages, rows[1..][i].dedupeKey) {
        assert rows[1..][i] == rows[i + 1];
      }
      InsertNothing(messages, rows[1..]);
    }
  }

  /** Keys that are new and all different. */
  ghost predicate AllNew(messages: seq<Message>, rows: seq<Message>) {
    KeysDistinct(rows) && forall i :: 0 <= i < |rows| ==> !HasKey(messages, rows[i].dedupeKey)
  }

  lemma StillAllNew(messages: seq<Message>, rows: seq<Message>)
    requires rows != [] && AllNew(messages, rows)
    ensures AllNew(messages + [rows[0]], rows[1..])
  {
    var rest := rows[1..];
    assert forall i :: 0 <= i < |rest| ==> rest[i] == rows[i + 1];
  }

  lemma NewAfterFirst(messages: seq<Message>, rows: seq<Message>)
    requires rows != [] && !HasKey(messages, rows[0].dedupeKey) && AllNew(messages + [rows[0]], rows[1..])
    ensures AllNew(messages, rows)
  {
    var more, rest := messages + [rows[0]], rows[1..];
    assert more[|messages|] == rows[0];
    forall i | 0 < i < |rows| ensures rows[i].dedupeKey != rows[0].dedupeKey && !HasKey(messages, rows[i].dedupeKey) {
      assert rest[i - 1] == rows[i];
      if HasKey(messages, rows[i].dedupeKey) { HasKeyGrows(messages, more, rows[i].dedupeKey); }
    }
    forall i, j | 0 <= i < j < |rows| ensures rows[i].dedupeKey != rows[j].dedupeKey {
      if i > 0 { assert rest[i - 1] == rows[i] && rest[j - 1] == rows[j]; }
    }
  }

  /** The same, met row by row. */
  predicate EachNew(messages: seq<Message>, rows: seq<Message>)
    decreases |rows|
  {
    rows == [] || (!HasKey(messages, rows[0].dedupeKey) && EachNew(messages + [rows[0]], rows[1..]))
  }

  lemma {:induction false} EachNewIsAllNew(messages: seq<Message>, rows: seq<Message>)
    ensures EachNew(messages, rows) <==> AllNew(messages, rows)
    decreases |rows|
  {
    if rows != [] {
      EachNewIsAllNew(messages + [rows[0]], rows[1..]);
      if AllNew(messages, rows) {
        HeadIsNew(messages, rows);
        StillAllNew(messages, rows);
      } else if EachNew(messages, rows) {
        NewAfterFirst(messages, rows);
      }
    }
  }

  lemma HeadIsNew(messages: seq<Message>, rows: seq<Message>)
    requires rows != [] && AllNew(messages, rows)
    ensures !HasKey(messages, rows[0].dedupeKey)
  {
  }

  /** The caller named the key; an empty one does not count. */
  predicate Overridden(pub: Publication) { pub.dedupeKey.Some? && pub.dedupeKey.value != "" }

  /** The key an override gives every row: cut to the width of the column. */
  function SharedKey(pub: Publication): string
    requires Overridden(pub)
  {
    if |pub.dedupeKey.value| <= MAX_KEY_LENGTH then pub.dedupeKey.value else pub.dedupeKey.value[..MAX_KEY_LENGTH]
  }

  /** Under an override all candidates of a publish carry one key. */
  lemma OverriddenPlanShares(dir: Directory, lib: Library, pub: Publication, first: int, recipients: seq<int>)
    requires IsDigest(lib.sha) && Overridden(pub)
    ensures var candidates := PlanOf(dir, lib, pub, first, recipients).candidates;
            forall i :: 0 <= i < |candidates| ==> candidates[i].dedupeKey == SharedKey(pub)
  {
    var plan := PlanOf(dir, lib, pub, first, recipients);
    forall i | 0 <= i < |plan.candidates| ensures plan.candidates[i].dedupeKey == SharedKey(pub) {
      CandidatesExact(dir, lib, pub, plan.rows, plan.byEmail, plan.candidates[i]);
    }
  }

  /** Derived keys of one publish never collide with each other. */
  lemma {:induction false} DerivedCandidatesDistinct(dir: Directory, lib: Library, pub: Publication, rows: seq<Notification>, users: seq<int>)
    requires IsDigest(lib.sha) && NoDuplicates(users) && !Overridden(pub)
    ensures KeysDistinct(Candidates(dir, lib, pub, rows, users))
  {
    if users != [] {
      DerivedCandidatesDistinct(dir, lib, pub, rows, users[1..]);
      var tail := Candidates(dir, lib, pub, rows, users[1..]);
      forall j | 0 <= j < |tail| ensures tail[j].dedupeKey != KeyFor(lib, pub, users[0]) {
        CandidatesExact(dir, lib, pub, rows, users[1..], tail[j]);
        var u :| u in users[1..] && Addressable(dir, u) && tail[j] == MessageFor(dir, lib, pub, rows, u);
        var k :| 0 <= k < |users[1..]| && users[1..][k] == u;
        assert users[k + 1] == u;
        UserKeysDistinct(lib.sha, lib.lower, ChannelCode(Email), pub.kind, Payload(pub), u, users[0]);
      }
    }
  }

  /** A shared key queues a single row for the whole audience, or none if it was used before. */
  lemma {:induction false} SharedKeyQueuesOne(messages: seq<Message>, rows: seq<Message>, key: string)
    requires forall i :: 0 <= i < |rows| ==> rows[i].dedupeKey == key
    ensures InsertNew(messages, rows) == if rows == [] || HasKey(messages, key) then messages else messages + [rows[0]]
  {
    if rows != [] {
      var more := if HasKey(messages, key) then messages else messages + [rows[0]];
      if !HasKey(messages, key) { assert more[|messages|].dedupeKey == key; }
      assert HasKey(more, key);
      var rest := rows[1..];
      assert forall i :: 0 <= i < |rest| ==> rest[i] == rows[i + 1];
      InsertNothing(more, rest);
    }
  }

  lemma {:induction false} InsertNeverAddsMore(messages: seq<Message>, rows: seq<Message>)
    ensures |InsertNew(messages, rows)| <= |messages| + |rows|
    decreases |rows|
  {
    if rows != [] {
      InsertNeverAddsMore(if HasKey(messages, rows[0].dedupeKey) then messages else messages + [rows[0]], rows[1..]);
    }
  }

  lemma {:induction false} InsertsEachIff(messages: seq<Message>, rows: seq<Message>)
    ensures InsertNew(messages, rows) == messages + rows <==> EachNew(messages, rows)
    decreases |rows|
  {
    if rows == [] {
      assert messages + rows == messages;
    } else if HasKey(messages, rows[0].dedupeKey) {
      InsertNeverAddsMore(messages, rows[1..]);
    } else {
      InsertsEachIff(messages + [rows[0]], rows[1..]);
      assert messages + [rows[0]] + rows[1..] == messages + rows;
    }
  }

  /** Every row is inserted exactly when no key was used before and no two are alike. */
  lemma InsertsAllIff(messages: seq<Message>, rows: seq<Message>)
    ensures InsertNew(messages, rows) == messages + rows <==> AllNew(messages, rows)
  {
    InsertsEachIff(messages, rows);
    EachNewIsAllNew(messages, rows);
  }

  /**
   * A publish that lands queues every one of its candidates if and only if none of their keys was
   * used before and either the keys are derived or there is at most one candidate: an override
   * is one key for a whole audience.
   */
  lemma PublishQueuesAllIff(dir: Directory, lib: Library, s: State, pub: Publication, recipients: seq<int>, failing: set<CrmCall>)
    requires IsDigest(lib.sha) && IsAudience(dir, pub.target, recipients)
    requires Lands(s, pub, recipients, PlanOf(dir, lib, pub, s.next, recipients), failing)
    ensures var candidates := PlanOf(dir, lib, pub, s.next, recipients).candidates;
            Published(dir, lib, s, pub, recipients, failing).0.outbox.messages == s.outbox.messages + candidates
            <==> (forall i :: 0 <= i < |candidates| ==> !HasKey(s.outbox.messages, candidates[i].dedupeKey))
                 && (!Overridden(pub) || |candidates| <= 1)
  {
    var plan := PlanOf(dir, lib, pub, s.next, recipients);
    AudienceIsDistinct(dir, pub.target, recipients);
    ThroughElements(dir, pub, recipients, Email);
    InsertsAllIff(s.outbox.messages, plan.candidates);
    if Overridden(pub) {
      OverriddenPlanShares(dir, lib, pub, s.next, recipients);
      if |plan.candidates| > 1 { assert plan.candidates[0].dedupeKey == plan.candidates[1].dedupeKey; }
    } else {
      DerivedCandidatesDistinct(dir, lib, pub, plan.rows, plan.byEmail);
    }
  }

  /** Under an override a publish that lands queues one row for its whole audience, or none if the key was used before. */
  lemma OverriddenPublishQueuesOne(dir: Directory, lib: Library, s: State, pub: Publication, recipients: seq<int>, failing: set<CrmCall>)
    requires IsDigest(lib.sha) && Overridden(pub)
    requires Lands(s, pub, recipients, PlanOf(dir, lib, pub, s.next, recipients), failing)
    ensures var candidates := PlanOf(dir, lib, pub, s.next, recipients).candidates;
            Published(dir, lib, s, pub, recipients, failing).0.outbox.messages
            == s.outbox.messages + if candidates == [] || HasKey(s.outbox.messages, SharedKey(pub)) then [] else [candidates[0]]
  {
    var plan := PlanOf(dir, lib, pub, s.next, recipients);
    OverriddenPlanShares(dir, lib, pub, s.next, recipients);
    SharedKeyQueuesOne(s.outbox.messages, plan.candidates, SharedKey(pub));
  }
}
