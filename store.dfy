/** The `users` table both controllers talk to, as the operations they issue
    on it: insert with an AUTO_INCREMENT id, select, delete by id and update
    by id. Each call is one atomic step; `fail` stands for the driver
    reporting an error. */
module Store {
  import opened Records

  /** An ASCII upper-case letter in lower case; any other character as it
      is. */
  function LowerAscii(c: char): (r: char)
    ensures 'A' <= c <= 'Z' ==> 'a' <= r <= 'z' && r as int - c as int == 32
    ensures !('A' <= c <= 'Z') ==> r == c
  {
    if 'A' <= c <= 'Z' then (c as int + 32) as char else c
  }

  /** The key a case-insensitive collation compares: every ASCII letter in
      lower case. An email that passes the server's pattern is all ASCII, so
      for such emails this is the whole of the collation's case folding. */
  function FoldCase(s: string): (r: string)
    ensures |r| == |s|
    ensures forall i :: 0 <= i < |s| ==> r[i] == LowerAscii(s[i])
  {
    if s == [] then [] else [LowerAscii(s[0])] + FoldCase(s[1..])
  }

  /** a and b have the same length and agree position by position up to
      ASCII case. */
  predicate SameUpToCase(a: string, b: string) {
    |a| == |b| && forall i :: 0 <= i < |a| ==> LowerAscii(a[i]) == LowerAscii(b[i])
  }

  /** Two strings fold to the same key exactly when they agree up to ASCII
      case. */
  lemma FoldCaseEqual(a: string, b: string)
    ensures FoldCase(a) == FoldCase(b) <==> SameUpToCase(a, b)
  {
    if SameUpToCase(a, b) {
      var fa, fb := FoldCase(a), FoldCase(b);
      assert forall i | 0 <= i < |fa| :: fa[i] == fb[i];
    }
  }

  /** Folding is idempotent. */
  lemma FoldCaseIdempotent(s: string)
    ensures FoldCase(FoldCase(s)) == FoldCase(s)
  {
    assert forall i :: 0 <= i < |s| ==> FoldCase(FoldCase(s))[i] == FoldCase(s)[i];
  }

  class UserTable {
    /** The rows, keyed by id. */
    var rows: map<int, Record>
    /** The next AUTO_INCREMENT id. */
    var nextId: int
    /** Whether the schema declares `email UNIQUE`. */
    const uniqueEmail: bool
    /** Whether emails are compared under a case-insensitive collation, as
        MySQL's default collation compares them. */
    const caseInsensitive: bool

    /** The form of an email that the unique index compares. */
    function EmailKey(email: string): string {
      if caseInsensitive then FoldCase(email) else email
    }

    ghost predicate Valid()
      reads this
    {
      && 1 <= nextId
      && (forall id :: id in rows ==> 1 <= id < nextId)
      && (uniqueEmail ==> forall i, j :: i in rows && j in rows && i != j ==> EmailKey(rows[i].email) != EmailKey(rows[j].email))
    }

    /** `CREATE TABLE users (id INT AUTO_INCREMENT PRIMARY KEY, ...)`. */
    constructor (uniqueEmail: bool, caseInsensitive: bool)
      ensures Valid()
      ensures rows == map[] && nextId == 1
      ensures this.uniqueEmail == uniqueEmail && this.caseInsensitive == caseInsensitive
    {
      rows := map[];
      nextId := 1;
      this.uniqueEmail := uniqueEmail;
      this.caseInsensitive := caseInsensitive;
    }

    /** A row other than `except` already holds this email, as the unique
        index compares emails, and the schema forbids that. */
    predicate EmailTaken(email: string, except: Option<int>)
      reads this
    {
      uniqueEmail && exists id :: id in rows && Some(id) != except && EmailKey(rows[id].email) == EmailKey(email)
    }

    /** INSERT: the row gets the next id; a driver error or a duplicate email
        leaves the table as it was. */
    method Insert(rec: Record, fail: bool) returns (id: Option<int>)
      requires Valid()
      modifies this
      ensures Valid()
      ensures id.Some? <==> !fail && !old(EmailTaken(rec.email, None))
      ensures id.Some? ==> id.value == old(nextId) && id.value !in old(rows)
      ensures id.Some? ==> rows == old(rows)[id.value := rec] && nextId == old(nextId) + 1
      ensures id.None? ==> rows == old(rows) && nextId == old(nextId)
    {
      if fail || EmailTaken(rec.email, None) {
        return None;
      }
      id := Some(nextId);
      rows := rows[nextId := rec];
      nextId := nextId + 1;
    }

    /** DELETE ... WHERE id = ?: the removed row, if there was one. */
    method Delete(id: int, fail: bool) returns (ok: bool, removed: Option<Record>)
      requires Valid()
      modifies this
      ensures Valid()
      ensures ok == !fail && nextId == old(nextId)
      ensures ok && id in old(rows) ==> removed == Some(old(rows)[id]) && rows == old(rows) - {id}
      ensures !(ok && id in old(rows)) ==> removed == None && rows == old(rows)
    {
      ok := !fail;
      removed := None;
      if ok && id in rows {
        removed := Some(rows[id]);
        rows := rows - {id};
      }
    }

    /** UPDATE ... WHERE id = ?: the number of rows matched; a driver error
        or an email held by another row leaves the table as it was. */
    method Update(id: int, rec: Record, fail: bool) returns (ok: bool, affected: nat)
      requires Valid()
      modifies this
      ensures Valid()
      ensures ok == (!fail && !old(EmailTaken(rec.email, Some(id)))) && nextId == old(nextId)
      ensures ok && id in old(rows) ==> affected == 1 && rows == old(rows)[id := rec]
      ensures !(ok && id in old(rows)) ==> affected == 0 && rows == old(rows)
    {
      ok := !fail && !EmailTaken(rec.email, Some(id));
      affected := 0;
      if ok && id in rows {
        rows := rows[id := rec];
        affected := 1;
      }
    }
  }

  /** Under a case-insensitive unique index, an email that differs from a
      stored one only in case is taken: "A@b.co" clashes with "a@b.co". */
  lemma CaseOnlyClashIsTaken(t: UserTable, id: int)
    requires t.uniqueEmail && t.caseInsensitive
    requires id in t.rows && t.rows[id].email == "a@b.co"
    ensures t.EmailTaken("A@b.co", None)
  {
    FoldCaseEqual("A@b.co", "a@b.co");
  }

  /** The rows with ids in [lo, hi), by ascending id. */
  function RowsFrom(rows: map<int, Record>, lo: int, hi: int): (r: seq<Row>)
    ensures AscendingIds(r)
    ensures forall i :: 0 <= i < |r| ==> lo <= r[i].id < hi && r[i].id in rows && rows[r[i].id] == r[i].rec
    ensures forall id :: id in rows && lo <= id < hi ==> Row(id, rows[id]) in r
    decreases hi - lo
  {
    if lo >= hi then []
    else (if lo in rows then [Row(lo, rows[lo])] else []) + RowsFrom(rows, lo + 1, hi)
  }

  /** `SELECT * FROM users ORDER BY id`: since every id lies in
      [1, nextId), scanning that range lists every row once, by ascending id. */
  function RowsById(rows: map<int, Record>, nextId: int): (r: seq<Row>)
    requires forall id :: id in rows ==> 1 <= id < nextId
    ensures AscendingIds(r) && Enumerates(r, rows)
  {
    RowsFrom(rows, 1, nextId)
  }
}
