/** The notification service and its repository, step by step, on a CRM session that may fail. */
module Notifications {
  import opened Prelude
  import opened Text
  import opened DedupeKey
  import opened CanonicalJson
  import opened CrmTables
  import opened Delivery
  import opened DeliveryRuns
  import opened CrmSessions

  class NotificationRepository {
    const session: CrmSession

    constructor (session: CrmSession)
      ensures this.session == session
    {
      this.session := session;
    }

    method ResolveInternalUserId(authId: string) returns (ok: bool, user: Option<int>)
      requires AuthIdsUnique(session.directory)
      modifies session`aborted
      ensures ok == (!old(session.aborted) && ResolveUser !in session.failing) && session.aborted == !ok
      ensures ok ==> forall u :: u in UsersNamed(session.directory, authId) <==> user == Some(u)
    {
      user := None;
      ok := session.Execute(ResolveUser);
      if ok {
        var named := UsersNamed(session.directory, authId);
        var matches := Enumerate(named);
        if matches != [] {
          assert matches[0] in named;
          user := Some(matches[0]);
        }
        forall u ensures u in named <==> user == Some(u) {
          if u in named {
            assert u in matches;
            var users := session.directory.users;
            assert u in users && matches[0] in users && users[u].authId == authId == users[matches[0]].authId;
            assert u == matches[0];
          }
        }
      }
    }

    method FindCommunityRecipientIds(community: int, excludeUser: Option<int>, roles: Option<seq<string>>) returns (ok: bool, users: seq<int>)
      modifies session`aborted
      ensures ok == (!old(session.aborted) && FindMembers !in session.failing) && session.aborted == !ok
      ensures ok ==> Enumerates(users, set k | k in session.directory.members && k.community == community
                && RoleWanted(roles, session.directory.members[k]) && (excludeUser.None? || k.user != excludeUser.value) :: k.user)
    {
      users := [];
      ok := session.Execute(FindMembers);
      if ok {
        users := Enumerate(set k | k in session.directory.members && k.community == community
          && RoleWanted(roles, session.directory.members[k]) && (excludeUser.None? || k.user != excludeUser.value) :: k.user);
      }
    }

    /** Folding the preference rows in any order gives "specific row, else default row, else absent". */
    method FindPreferences(users: seq<int>, prefix: string) returns (ok: bool, resolved: map<(int, Channel), int>)
      requires users != []
      modifies session`aborted
      ensures ok == (!old(session.aborted) && CrmCall.FindPreferences !in session.failing) && session.aborted == !ok
      ensures ok ==> forall u, c :: (u, c) in resolved <==> u in users && ResolvedMode(session.directory, u, prefix, c).Some?
      ensures ok ==> forall u, c :: (u, c) in resolved ==> ResolvedMode(session.directory, u, prefix, c) == Some(resolved[(u, c)])
      ensures ok ==> forall u, c :: (u, c) in resolved ==> (resolved[(u, c)] == 3 <==> SwitchedOff(session.directory, u, prefix, c))
      ensures ok ==> forall k :: k in session.directory.preferences && k.user in users && k.prefix == prefix ==>
                (k.user, k.channel) in resolved && resolved[(k.user, k.channel)] == session.directory.preferences[k]
    {
      resolved := map[];
      ok := session.Execute(CrmCall.FindPreferences);
      if ok {
        var preferences := session.directory.preferences;
        var keys := set k | k in preferences && k.user in users && k.prefix in {"", prefix};
        var rows := Enumerate(keys);
        for i := 0 to |rows|
          invariant forall k :: k in rows[..i] ==> k in preferences
          invariant forall u, c :: (u, c) in resolved <==>
                      PreferenceKey(u, prefix, c) in rows[..i] || PreferenceKey(u, "", c) in rows[..i]
          invariant forall u, c :: (u, c) in resolved ==>
                      resolved[(u, c)] == if PreferenceKey(u, prefix, c) in rows[..i]
                                          then preferences[PreferenceKey(u, prefix, c)] else preferences[PreferenceKey(u, "", c)]
        {
          var row := rows[i];
          assert row in keys;
          assert rows[..i + 1] == rows[..i] + [row];
          assert row !in rows[..i];
          if row.prefix != "" || (row.user, row.channel) !in resolved {
            resolved := resolved[(row.user, row.channel) := preferences[row]];
          }
        }
        assert rows[..|rows|] == rows;
        assert forall u, c :: PreferenceKey(u, prefix, c) in rows <==> PreferenceKey(u, prefix, c) in preferences && u in users;
        assert forall u, c :: PreferenceKey(u, "", c) in rows <==> PreferenceKey(u, "", c) in preferences && u in users;
      }
    }

    method FindRecipientContacts(users: seq<int>) returns (ok: bool, contacts: map<int, Contact>)
      requires users != []
      modifies session`aborted
      ensures ok == (!old(session.aborted) && FindContacts !in session.failing) && session.aborted == !ok
      ensures ok ==> forall u :: u in contacts <==> u in users && u in session.directory.users
      ensures ok ==> forall u :: u in contacts ==> contacts[u] == ContactOf(session.directory.users[u])
    {
      contacts := map[];
      ok := session.Execute(FindContacts);
      if ok {
        var found := set u | u in session.directory.users && u in users;
        var rows := Enumerate(found);
        for i := 0 to |rows|
          invariant forall u :: u in contacts <==> u in rows[..i]
          invariant forall u :: u in contacts ==> u in session.directory.users && contacts[u] == ContactOf(session.directory.users[u])
        {
          assert rows[i] in found;
          contacts := contacts[rows[i] := ContactOf(session.directory.users[rows[i]])];
        }
        assert rows[..|rows|] == rows;
      }
    }

    /** Stages the rows and flushes, so each now has an id of its own. */
    method InsertMany(users: seq<int>, pub: Publication) returns (ok: bool, rows: seq<Notification>)
      modifies session`aborted, session`working, session`next
      ensures users == [] ==> ok && session.aborted == old(session.aborted)
      ensures users != [] ==> ok == (!old(session.aborted) && InsertNotifications !in session.failing) && session.aborted == !ok
      ensures ok ==> rows == NewNotifications(old(session.next), users, pub)
      ensures ok ==> session.working == old(session.working).(notifications := old(session.working).notifications + rows)
      ensures ok ==> session.next == old(session.next) + |users|
      ensures !ok ==> session.working == old(session.working) && session.next == old(session.next)
    {
      rows := NewNotifications(session.next, users, pub);
      ok := true;
      if users == [] {
        assert session.working.notifications + rows == session.working.notifications;
        return;
      }
      ok := session.Execute(InsertNotifications);
      if ok {
        session.working := session.working.(notifications := session.working.notifications + rows);
        session.next := session.next + |users|;
      }
    }

    method InsertMessages(rows: seq<Message>) returns (ok: bool)
      modifies session`aborted, session`working
      ensures rows == [] ==> ok && session.aborted == old(session.aborted)
      ensures rows != [] ==> ok == (!old(session.aborted) && InsertOutbound !in session.failing) && session.aborted == !ok
      ensures session.working == if ok then old(session.working).(messages := InsertNew(old(session.working).messages, rows))
                                 else old(session.working)
    {
      ok := true;
      if rows == [] { return; }
      ok := session.Execute(InsertOutbound);
      if ok {
        var messages := session.working.messages;
        for i := 0 to |rows|
          invariant InsertNew(messages, rows[i..]) == InsertNew(session.working.messages, rows)
        {
          assert rows[i..][1..] == rows[i + 1..];
          if !HasKey(messages, rows[i].dedupeKey) { messages := messages + [rows[i]]; }
        }
        session.working := session.working.(messages := messages);
      }
    }
  }

  class NotificationService {
    const session: CrmSession
    const repository: NotificationRepository
    const lib: Library
    var pending: seq<Hint>
    var emitted: seq<Hint>

    constructor (session: CrmSession, repository: NotificationRepository, lib: Library)
      requires repository.session == session
      ensures this.session == session && this.repository == repository && this.lib == lib && pending == emitted == []
    {
      this.session, this.repository, this.lib := session, repository, lib;
      pending, emitted := [], [];
    }

    ghost predicate Valid()
      reads this
    {
      repository.session == session && IsDigest(lib.sha) && AuthIdsUnique(session.directory)
    }

    ghost function StateOf(): State
      reads this, session
    {
      session.Staged().(pending := pending, emitted := emitted)
    }

    method ResolveAudience(target: Target) returns (ok: bool, recipients: seq<int>)
      requires Valid()
      modifies session`aborted
      ensures IsAudience(session.directory, target, recipients)
      ensures ok == (AudienceCalls(target) == {} || (!old(session.aborted) && session.failing * AudienceCalls(target) == {}))
      ensures session.aborted == if AudienceCalls(target) == {} then old(session.aborted) else !ok
    {
      ok := true;
      match target {
        case UserTarget(user, _) => recipients := [user];
        case UsersTarget(users, _) => recipients := Dedupe(users);
        case CommunityTarget(id, roles, exclude) =>
          var reached := Reached(session.directory, id, roles, exclude);
          recipients := Enumerate(reached);
          var excludeUser: Option<int> := None;
          if exclude.Some? && exclude.value != "" {
            ok, excludeUser := repository.ResolveInternalUserId(exclude.value);
            if !ok {
              assert !old(session.aborted) ==> ResolveUser in session.failing * AudienceCalls(target);
              return;
            }
          }
          var found;
          ok, found := repository.FindCommunityRecipientIds(id, excludeUser, roles);
          if ok {
            assert forall k :: k in session.directory.members ==>
              (Excluded(session.directory, exclude, k.user) <==> excludeUser == Some(k.user));
            assert (set k | k in session.directory.members && k.community == id
                && RoleWanted(roles, session.directory.members[k]) && (excludeUser.None? || k.user != excludeUser.value) :: k.user)
              == reached;
            recipients := found;
          } else {
            assert !old(session.aborted) ==> FindMembers in session.failing * AudienceCalls(target);
          }
      }
    }

    /** Requested channels minus what each recipient has switched off. */
    method EffectiveChannels(pub: Publication, recipients: seq<int>) returns (ok: bool, effective: map<int, set<Channel>>)
      requires Valid() && recipients != []
      modifies session`aborted
      ensures ok == (PreferenceCalls(pub, recipients) == {} || (!old(session.aborted) && session.failing * PreferenceCalls(pub, recipients) == {}))
      ensures session.aborted == if PreferenceCalls(pub, recipients) == {} then old(session.aborted) else !ok
      ensures ok ==> forall u :: u in recipients ==> u in effective && effective[u] == Effective(session.directory, pub, u)
    {
      var requested := set c | c in pub.channels;
      effective := map u | u in recipients :: requested;
      ok := true;
      if pub.category == Transactional {
        assert forall u :: Effective(session.directory, pub, u) == requested;
        return;
      }
      var modes;
      ok, modes := repository.FindPreferences(recipients, TypePrefixOf(pub.kind));
      if !ok {
        assert !old(session.aborted) ==> CrmCall.FindPreferences in session.failing * PreferenceCalls(pub, recipients);
        return;
      }
      var entries := Enumerate(modes.Keys);
      for i := 0 to |entries|
        invariant forall u :: u in recipients ==> u in effective
        invariant forall u, c :: u in recipients ==>
                    (c in effective[u] <==> c in requested && !((u, c) in entries[..i] && (u, c) in modes && modes[(u, c)] == MODE_OFF))
      {
        var (user, channel) := entries[i];
        assert entries[i] in modes.Keys;
        assert entries[..i + 1] == entries[..i] + [entries[i]];
        if modes[(user, channel)] == MODE_OFF && user in effective {
          effective := effective[user := effective[user] - {channel}];
        }
      }
      assert entries[..|entries|] == entries;
      forall u | u in recipients ensures effective[u] == Effective(session.directory, pub, u) {
        forall c ensures c in effective[u] <==> c in Effective(session.directory, pub, u) {
          assert (u, c) in entries <==> (u, c) in modes;
        }
      }
    }

    method Select(recipients: seq<int>, effective: map<int, set<Channel>>, channel: Channel, ghost pub: Publication) returns (selected: seq<int>)
      requires forall u :: u in recipients ==> u in effective && effective[u] == Effective(session.directory, pub, u)
      ensures selected == Through(session.directory, pub, recipients, channel)
    {
      selected := [];
      for i := |recipients| downto 0
        invariant selected == Through(session.directory, pub, recipients[i..], channel)
      {
        assert recipients[i..][0] == recipients[i] && recipients[i..][1..] == recipients[i + 1..];
        if channel in effective[recipients[i]] { selected := [recipients[i]] + selected; }
      }
      assert recipients[0..] == recipients;
    }

    /** Who is told in the app, and who by email. */
    method Split(pub: Publication, recipients: seq<int>) returns (ok: bool, inApp: seq<int>, byEmail: seq<int>)
      requires Valid() && recipients != []
      modifies session`aborted
      ensures ok == (PreferenceCalls(pub, recipients) == {} || (!old(session.aborted) && session.failing * PreferenceCalls(pub, recipients) == {}))
      ensures session.aborted == if PreferenceCalls(pub, recipients) == {} then old(session.aborted) else !ok
      ensures ok ==> inApp == Through(session.directory, pub, recipients, InApp)
      ensures ok ==> byEmail == Through(session.directory, pub, recipients, Email)
    {
      inApp, byEmail := [], [];
      var effective;
      ok, effective := EffectiveChannels(pub, recipients);
      if !ok { return; }
      inApp := Select(recipients, effective, InApp, pub);
      byEmail := Select(recipients, effective, Email, pub);
    }

    /** Builds one row per addressee with a usable address and queues the new ones. */
    method EnqueueEmail(pub: Publication, users: seq<int>, rows: seq<Notification>) returns (ok: bool)
      requires Valid() && users != []
      modifies session`aborted, session`working
      ensures var candidates := Candidates(session.directory, lib, pub, rows, users);
              var calls := {FindContacts} + (if candidates == [] then {} else {InsertOutbound});
              && ok == (!old(session.aborted) && session.failing * calls == {})
              && session.aborted == !ok
              && session.working == if ok then old(session.working).(messages := InsertNew(old(session.working).messages, candidates))
                                    else old(session.working)
    {
      ghost var candidates := Candidates(session.directory, lib, pub, rows, users);
      ghost var calls := {FindContacts} + (if candidates == [] then {} else {InsertOutbound});
      var contacts;
      ok, contacts := repository.FindRecipientContacts(users);
      if !ok {
        assert !old(session.aborted) ==> FindContacts in session.failing * calls;
        return;
      }
      var messages: seq<Message> := [];
      for i := |users| downto 0
        invariant messages == Candidates(session.directory, lib, pub, rows, users[i..])
      {
        assert users[i..][0] == users[i] && users[i..][1..] == users[i + 1..];
        assert users[i] in contacts <==> users[i] in session.directory.users;
        if users[i] in contacts {
          var contact := contacts[users[i]];
          var address := Strip(contact.email);
          if Usable(address) {
            messages := [Message(NotificationFor(rows, users[i]), SourceCommunity(pub.target), Email, address, contact.displayName,
                                 match contact.locale case Some(l) => l case None => "",
                                 pub.kind, pub.category, Payload(pub), KeyFor(lib, pub, users[i]))] + messages;
          }
        }
      }
      assert users[0..] == users;
      ok := repository.InsertMessages(messages);
      if !ok { assert InsertOutbound in session.failing * calls; }
    }

    /** Every write of one publish, under the open savepoint. */
    method WriteRows(pub: Publication, inApp: seq<int>, byEmail: seq<int>, ghost plan: Plan) returns (ok: bool)
      requires Valid() && !session.aborted && !Empty(plan)
      requires plan.inApp == inApp && plan.byEmail == byEmail
      requires plan.rows == NewNotifications(session.next, inApp, pub)
      requires plan.candidates == Candidates(session.directory, lib, pub, plan.rows, byEmail)
      modifies session`aborted, session`working, session`next
      ensures ok == (session.failing * CallsInside(plan) == {})
      ensures ok ==> !session.aborted && session.working == Delivered(old(session.working), plan)
      ensures session.next == old(session.next) + (if InsertNotifications in session.failing then 0 else |inApp|)
    {
      var rows;
      ok, rows := repository.InsertMany(inApp, pub);
      if !ok {
        assert InsertNotifications in session.failing * CallsInside(plan);
        return;
      }
      if byEmail != [] {
        ok := EnqueueEmail(pub, byEmail, rows);
        if !ok {
          assert FindContacts in session.failing * CallsInside(plan) || InsertOutbound in session.failing * CallsInside(plan);
          return;
        }
      }
      ok := session.Execute(ReleaseSavepoint);
      if !ok { assert ReleaseSavepoint in session.failing * CallsInside(plan); }
    }

    /** The savepoint, the writes under it, and the hint staged once they are in. */
    method Deliver(pub: Publication, inApp: seq<int>, byEmail: seq<int>, ghost plan: Plan) returns (count: nat)
      requires Valid() && !Empty(plan)
      requires plan.inApp == inApp && plan.byEmail == byEmail
      requires plan.rows == NewNotifications(session.next, inApp, pub)
      requires plan.candidates == Candidates(session.directory, lib, pub, plan.rows, byEmail)
      modifies this`pending, session`aborted, session`working, session`savepoint, session`next
      ensures Valid()
      ensures old(session.aborted) || OpenSavepoint in session.failing ==>
                count == 0 && StateOf() == old(StateOf()).(aborted := true)
      ensures !old(session.aborted) && OpenSavepoint !in session.failing ==>
                (StateOf(), count) == Written(old(StateOf()), pub, plan, session.failing)
    {
      count := 0;
      var ok := session.BeginNested();
      if !ok { return; }
      ok := WriteRows(pub, inApp, byEmail, plan);
      if !ok {
        session.Undo();
        return;
      }
      if inApp != [] { pending := pending + [Hint(inApp, SourceCommunity(pub.target))]; }
      count := |inApp|;
    }

    /**
     * Fans a notification out. Whatever fails and wherever, the rows and the hint land together
     * or not at all, and the caller hears how many in-app rows are staged.
     */
    method Publish(pub: Publication) returns (count: nat, ghost recipients: seq<int>)
      requires Valid()
      modifies this`pending, session`aborted, session`working, session`savepoint, session`next
      ensures Valid() && IsAudience(session.directory, pub.target, recipients)
      ensures (StateOf(), count) == Published(session.directory, lib, old(StateOf()), pub, recipients, session.failing)
    {
      count := 0;
      ghost var before := StateOf();
      var ok, audience := ResolveAudience(pub.target);
      recipients := audience;
      ghost var dir, failing := session.directory, session.failing;
      ghost var plan := PlanOf(dir, lib, pub, before.next, recipients);
      if !ok {
        FailedOutside(dir, lib, before, pub, recipients, failing, AudienceCalls(pub.target));
        return;
      }
      if audience == [] {
        NothingToDeliver(dir, lib, before, pub, recipients, failing);
        return;
      }
      var inApp, byEmail;
      ok, inApp, byEmail := Split(pub, audience);
      if !ok {
        FailedOutside(dir, lib, before, pub, recipients, failing, PreferenceCalls(pub, recipients));
        return;
      }
      if inApp == [] && byEmail == [] {
        NothingToDeliver(dir, lib, before, pub, recipients, failing);
        return;
      }
      count := Deliver(pub, inApp, byEmail, plan);
      if before.aborted || OpenSavepoint in failing {
        FailedOutside(dir, lib, before, pub, recipients, failing, {OpenSavepoint});
      } else {
        OpenedThenWritten(dir, lib, before, pub, recipients, failing);
      }
    }

    /** Releases the staged hints, oldest first. Calling it again sends nothing. */
    method FlushRealtime()
      modifies this`pending, this`emitted
      ensures StateOf() == Flushed(old(StateOf()))
    {
      var staged := pending;
      pending := [];
      for i := 0 to |staged|
        invariant pending == [] && emitted == old(emitted) + staged[..i]
      {
        assert staged[..i + 1] == staged[..i] + [staged[i]];
        emitted := emitted + [staged[i]];
      }
      assert staged[..|staged|] == staged;
    }
  }
}
