/** The CRM transaction a request works in, and the two small services that share it. */
module CrmSessions {
  import opened Prelude
  import opened CrmTables
  import opened Delivery
  import opened DeliveryRuns

  /** One CRM transaction: rows staged, the savepoint copy, and which calls fail. */
  class CrmSession {
    const directory: Directory
    var committed: Outbox
    var working: Outbox
    var savepoint: Outbox
    var next: nat
    var aborted: bool
    var failing: set<CrmCall>

    ghost function Staged(): State
      reads this
    {
      State(committed, working, next, aborted, [], [])
    }

    constructor (directory: Directory, outbox: Outbox)
      ensures this.directory == directory && committed == working == outbox && !aborted && failing == {}
    {
      this.directory := directory;
      committed, working, savepoint := outbox, outbox, outbox;
      next, aborted, failing := 1, false, {};
    }

    /** Which statements fail is nobody's choice, and may differ from one stretch of a request to the next. */
    method Renew()
      modifies this`failing
    {
      failing := *;
    }

    /** A statement: a failing one aborts the transaction, and an aborted one answers nothing. */
    method Execute(call: CrmCall) returns (ok: bool)
      modifies this`aborted
      ensures ok == (!old(aborted) && call !in failing)
      ensures aborted == !ok
    {
      ok := !aborted && call !in failing;
      aborted := !ok;
    }

    method BeginNested() returns (ok: bool)
      modifies this`aborted, this`savepoint
      ensures ok == (!old(aborted) && OpenSavepoint !in failing)
      ensures aborted == !ok
      ensures ok ==> savepoint == working
    {
      ok := Execute(OpenSavepoint);
      if ok { savepoint := working; }
    }

    /** Undoes everything since the savepoint and revives the transaction, if the server answers. */
    method Undo()
      modifies this`working, this`aborted
      ensures working == savepoint && aborted == (RollbackToSavepoint in failing)
    {
      working := savepoint;
      aborted := RollbackToSavepoint in failing;
    }

    method Commit(answered: bool)
      modifies this`committed, this`working, this`aborted
      ensures if answered && !old(aborted) then committed == working == old(working) else working == committed == old(committed)
      ensures !aborted
    {
      if answered && !aborted { committed := working; } else { working := committed; }
      aborted := false;
    }

    /** Leaving the session rolls back whatever was not committed. */
    method Close()
      modifies this`working, this`aborted
      ensures working == committed && !aborted
    {
      working, aborted := committed, false;
    }
  }

  /** The auth id to email map that the user table stands for. */
  ghost predicate BookOf(dir: Directory, book: map<string, string>) {
    && (forall u :: u in dir.users ==> dir.users[u].authId in book && book[dir.users[u].authId] == dir.users[u].email)
    && (forall a :: a in book ==> exists u :: u in dir.users && dir.users[u].authId == a)
  }

  lemma BookHas(dir: Directory, book: map<string, string>, u: int)
    requires BookOf(dir, book) && u in dir.users
    ensures Lookup(book, dir.users[u].authId) == Some(dir.users[u].email)
  {
  }

  /** A dictionary read that may miss. */
  function Lookup(emails: map<string, string>, authId: string): Option<string> {
    if authId in emails then Some(emails[authId]) else None
  }

  class CrmRepository {
    const session: CrmSession

    constructor (session: CrmSession)
      ensures this.session == session
    {
      this.session := session;
    }

    /** Emails of the non-empty ids asked for; ids the directory does not know are absent. */
    method GetEmailsByAuthIds(authIds: seq<string>, ghost book: map<string, string>) returns (ok: bool, emails: map<string, string>)
      requires BookOf(session.directory, book)
      modifies session`aborted
      ensures session.aborted == (old(session.aborted) || !ok)
      ensures !ok ==> old(session.aborted) || FindEmails in session.failing
      ensures ok ==> forall a :: a in authIds ==> Lookup(emails, a) == if a != "" then Lookup(book, a) else None
    {
      emails, ok := map[], true;
      var wanted := set a | a in authIds && a != "";
      if wanted == {} {
        assert forall a :: a in authIds && a != "" ==> a in wanted;
        return;
      }
      ok := session.Execute(FindEmails);
      if ok {
        var users := session.directory.users;
        var found := set u | u in users && users[u].authId in wanted;
        var rows := Enumerate(found);
        for i := 0 to |rows|
          invariant !session.aborted
          invariant forall k :: 0 <= k < i ==> rows[k] in users && users[rows[k]].authId in emails
          invariant forall a :: a in emails ==> a in wanted && Lookup(book, a) == Some(emails[a])
        {
          assert rows[i] in found;
          var user := users[rows[i]];
          BookHas(session.directory, book, rows[i]);
          emails := emails[user.authId := user.email];
        }
        forall a | a in authIds && a != "" ensures Lookup(emails, a) == Lookup(book, a) {
          if a in book {
            var u :| u in users && users[u].authId == a;
            assert u in found && u in rows;
          }
        }
      }
    }
  }

  class AuditLogService {
    const session: CrmSession

    constructor (session: CrmSession)
      ensures this.session == session
    {
      this.session := session;
    }

    /** Stages one entry, or nothing; whatever fails stays in here. */
    method Log(entry: string, user: Option<string>)
      modifies session`aborted, session`working, session`savepoint
      ensures session.Staged() == Audited(old(session.Staged()), entry, user.Some? && user.value != "", session.failing)
    {
      var ok;
      if user.Some? && user.value != "" {
        ok := session.Execute(FindWriter);
        if !ok { return; }
      }
      ok := session.BeginNested();
      if !ok { return; }
      ok := session.Execute(InsertAudit);
      if ok {
        session.working := session.working.(audit := session.working.audit + [entry]);
        ok := session.Execute(ReleaseSavepoint);
      }
      if !ok { session.Undo(); }
    }
  }
}
