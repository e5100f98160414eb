/**
 The callback drain loop: pages of ready logs by ascending id, a cursor that goes back to 0 after a
 short page, and updates saved page by page.
 */
module CallbackDrain {
  import opened GoInt
  import opened Retry
  import opened Wrappers
  import opened CallbackLogs

  datatype Entry = Entry(id: nat, log: Log)

  // ----- pages -----

  /** The query's answer: the `batchSize` smallest ready ids above the cursor, ascending. */
  ghost predicate IsPage(page: seq<Entry>, table: Table, startTime: int, cursor: nat, batchSize: nat) {
    var ready := ReadyAfter(table, startTime, cursor);
    && (forall i, j | 0 <= i < j < |page| :: page[i].id < page[j].id)
    && (forall e <- page :: e.id in ready && e.log == table[e.id])
    && (forall r | r in ready && r !in Ids(page) :: |page| == batchSize && forall e <- page :: e.id < r)
    && |page| <= batchSize
  }

  function Ids(page: seq<Entry>): set<nat> { set e | e in page :: e.id }

  /** `repository.Find` forgets the last id when the page is short. */
  function NextCursor(page: seq<Entry>, batchSize: nat): nat {
    if |page| < batchSize || page == [] then 0 else page[|page| - 1].id
  }

  // ----- a page of attempts -----

  ghost predicate AttemptsOn(attempts: seq<Attempt>, page: seq<Entry>) {
    |attempts| == |page| && forall i | 0 <= i < |page| :: attempts[i].id == page[i].id
  }

  function Save(table: Table, updates: seq<Entry>): Table
    decreases |updates|
  {
    if updates == [] then table
    else Save(table, updates[..|updates| - 1])[updates[|updates| - 1].id := updates[|updates| - 1].log]
  }

  lemma {:induction false} ReplayElsewhere(policies: Policies, table: Table, attempts: seq<Attempt>, id: nat)
    requires id in table && forall i | 0 <= i < |attempts| :: attempts[i].id != id
    ensures id in Replay(policies, table, attempts) && Replay(policies, table, attempts)[id] == table[id]
    decreases |attempts|
  {
    if attempts != [] { ReplayElsewhere(policies, table, attempts[..|attempts| - 1], id); }
  }

  /** What an attempt on a page, each log once, makes of each of its logs. */
  lemma {:induction false} ReplayAt(policies: Policies, table: Table, attempts: seq<Attempt>, k: nat)
    requires k < |attempts| && attempts[k].id in table
    requires forall i, j | 0 <= i < j < |attempts| :: attempts[i].id < attempts[j].id
    ensures var a := attempts[k];
            && a.id in Replay(policies, table, attempts)
            && Replay(policies, table, attempts)[a.id] == Answered(policies(a.id), table[a.id], a.reply, a.now)
    decreases |attempts|
  {
    var front := attempts[..|attempts| - 1];
    ReplayKeys(policies, table, front);
    if k == |attempts| - 1 {
      ReplayElsewhere(policies, table, front, attempts[k].id);
    } else {
      ReplayAt(policies, table, front, k);
    }
  }

  /** Exactly the answered logs leave the ready set. */
  lemma PageShrinksReady(policies: Policies, table: Table, page: seq<Entry>, attempts: seq<Attempt>, startTime: int)
    requires forall id :: Waits(policies(id))
    requires forall i, j | 0 <= i < j < |page| :: page[i].id < page[j].id
    requires forall e <- page :: e.id in Ready(table, startTime)
    requires AttemptsOn(attempts, page)
    requires forall a <- attempts :: startTime <= a.now / MILLISECOND
    ensures Ready(Replay(policies, table, attempts), startTime) == Ready(table, startTime) - AnsweredIds(attempts)
  {
    var after := Replay(policies, table, attempts);
    ReplayKeys(policies, table, attempts);
    forall id | id in table
      ensures id in Ready(after, startTime) <==> id in Ready(table, startTime) && id !in AnsweredIds(attempts)
    {
      if k :| 0 <= k < |attempts| && attempts[k].id == id {
        assert page[k] in page && attempts[k] in attempts;
        ReplayAt(policies, table, attempts, k);
        AnswerLeavesReady(policies(id), table[id], attempts[k].reply, attempts[k].now, startTime);
        assert id in AnsweredIds(attempts) <==> attempts[k].reply != NoResponse;
      } else {
        ReplayElsewhere(policies, table, attempts, id);
        assert id !in AnsweredIds(attempts);
      }
    }
  }

  function AnsweredIds(attempts: seq<Attempt>): set<nat> {
    set a | a in attempts && a.reply != NoResponse :: a.id
  }

  function AttemptedIds(attempts: seq<Attempt>): set<nat> {
    set a | a in attempts :: a.id
  }

  lemma {:induction false} PageIds(page: seq<Entry>)
    requires forall i, j | 0 <= i < j < |page| :: page[i].id < page[j].id
    ensures |Ids(page)| == |page|
    decreases |page|
  {
    if page != [] {
      var front, last := page[..|page| - 1], page[|page| - 1];
      PageIds(front);
      assert page == front + [last];
      assert Ids(page) == Ids(front) + {last.id};
      assert last.id !in Ids(front);
    }
  }

  // ----- the page of a query is determined -----

  lemma {:induction false} PageExists(table: Table, startTime: int, cursor: nat, batchSize: nat)
    ensures exists page :: IsPage(page, table, startTime, cursor, batchSize)
  {
    if batchSize == 0 {
      assert IsPage([], table, startTime, cursor, 0);
    } else {
      PageExists(table, startTime, cursor, batchSize - 1);
      var page :| IsPage(page, table, startTime, cursor, batchSize - 1);
      LongerPage(page, table, startTime, cursor, batchSize);
    }
  }

  lemma LongerPage(page: seq<Entry>, table: Table, startTime: int, cursor: nat, batchSize: nat)
    requires batchSize > 0 && IsPage(page, table, startTime, cursor, batchSize - 1)
    ensures exists longer :: IsPage(longer, table, startTime, cursor, batchSize)
  {
    var rest := ReadyAfter(table, startTime, cursor) - Ids(page);
    if rest == {} {
      assert forall r | r in ReadyAfter(table, startTime, cursor) :: r in Ids(page);
      assert IsPage(page, table, startTime, cursor, batchSize);
    } else {
      LeastExists(rest);
      var id :| IsLeast(rest, id);
      var longer := page + [Entry(id, table[id])];
      assert forall i | 0 <= i < |page| :: page[i] in page;
      assert Ids(longer) == Ids(page) + {id} by { assert longer[|page|].id == id; }
      forall r | r in ReadyAfter(table, startTime, cursor) && r !in Ids(longer)
        ensures |longer| == batchSize && forall e <- longer :: e.id < r
      {
        assert r in rest;
      }
      assert IsPage(longer, table, startTime, cursor, batchSize);
    }
  }

  lemma {:induction false} PagesAgree(p: seq<Entry>, q: seq<Entry>, table: Table, startTime: int, cursor: nat, batchSize: nat, k: nat)
    requires IsPage(p, table, startTime, cursor, batchSize) && IsPage(q, table, startTime, cursor, batchSize)
    requires k <= |p|
    ensures k <= |q| && p[..k] == q[..k]
  {
    if k > 0 {
      PagesAgree(p, q, table, startTime, cursor, batchSize, k - 1);
      NextAgrees(p, q, table, startTime, cursor, batchSize, k - 1);
      if k <= |q| { NextAgrees(q, p, table, startTime, cursor, batchSize, k - 1); }
      assert p[k - 1] in p && q[k - 1] in q;
      assert p[..k] == p[..k - 1] + [p[k - 1]] && q[..k] == q[..k - 1] + [q[k - 1]];
    }
  }

  /** With equal entries before k, the k-th of one page is not missing from and not below the other's. */
  lemma NextAgrees(p: seq<Entry>, q: seq<Entry>, table: Table, startTime: int, cursor: nat, batchSize: nat, k: nat)
    requires IsPage(p, table, startTime, cursor, batchSize) && IsPage(q, table, startTime, cursor, batchSize)
    requires k < |p| && k <= |q| && p[..k] == q[..k]
    ensures k < |q| && q[k].id <= p[k].id
  {
    hide IsPage, ReadyAfter, Ids;
    var id := p[k].id;
    PagePlain(p, table, startTime, cursor, batchSize);
    PagePlain(q, table, startTime, cursor, batchSize);
    assert forall i | 0 <= i < k :: p[..k][i] == q[..k][i] && p[i] == q[i];
    if !exists j :: 0 <= j < |q| && q[j].id == id {
      MissingIsBeyond(q, table, startTime, cursor, batchSize, id);
    }
  }

  lemma PagePlain(page: seq<Entry>, table: Table, startTime: int, cursor: nat, batchSize: nat)
    requires IsPage(page, table, startTime, cursor, batchSize)
    ensures |page| <= batchSize
    ensures forall i, j | 0 <= i < j < |page| :: page[i].id < page[j].id
    ensures forall i | 0 <= i < |page| :: page[i].id in ReadyAfter(table, startTime, cursor)
  {
    assert forall i | 0 <= i < |page| :: page[i] in page;
  }

  lemma MissingIsBeyond(page: seq<Entry>, table: Table, startTime: int, cursor: nat, batchSize: nat, r: nat)
    requires IsPage(page, table, startTime, cursor, batchSize) && r in ReadyAfter(table, startTime, cursor)
    requires !exists j :: 0 <= j < |page| && page[j].id == r
    ensures |page| == batchSize && forall j | 0 <= j < |page| :: page[j].id < r
  {
    assert r !in Ids(page);
    assert forall j | 0 <= j < |page| :: page[j] in page;
  }

  lemma PageUnique(p: seq<Entry>, q: seq<Entry>, table: Table, startTime: int, cursor: nat, batchSize: nat)
    requires IsPage(p, table, startTime, cursor, batchSize) && IsPage(q, table, startTime, cursor, batchSize)
    ensures p == q
  {
    PagesAgree(p, q, table, startTime, cursor, batchSize, |p|);
    PagesAgree(q, p, table, startTime, cursor, batchSize, |q|);
    assert p == p[..|p|] && q == q[..|q|];
  }

  ghost function PageOf(table: Table, startTime: int, cursor: nat, batchSize: nat): (page: seq<Entry>)
    ensures IsPage(page, table, startTime, cursor, batchSize)
  {
    PageExists(table, startTime, cursor, batchSize);
    var page :| IsPage(page, table, startTime, cursor, batchSize); page
  }

  /** A page is as long as the ready logs above the cursor allow. */
  lemma PageLength(page: seq<Entry>, table: Table, startTime: int, cursor: nat, batchSize: nat)
    requires IsPage(page, table, startTime, cursor, batchSize)
    ensures |page| == Min(batchSize, |ReadyAfter(table, startTime, cursor)|)
    ensures |page| < batchSize ==> Ids(page) == ReadyAfter(table, startTime, cursor)
  {
    var ready := ReadyAfter(table, startTime, cursor);
    PageIds(page);
    assert Ids(page) <= ready;
    SubsetSize(Ids(page), ready);
    if |page| < batchSize { assert Ids(page) == ready; }
  }

  /** What is ready beyond a full page is what was ready without the page, whatever was answered. */
  lemma BeyondFullPage(policies: Policies, page: seq<Entry>, table: Table, startTime: int, cursor: nat, batchSize: nat, attempts: seq<Attempt>)
    requires IsPage(page, table, startTime, cursor, batchSize) && |page| == batchSize > 0 && AttemptsOn(attempts, page)
    ensures var rest := ReadyAfter(Replay(policies, table, attempts), startTime, NextCursor(page, batchSize));
            && rest == ReadyAfter(table, startTime, cursor) - Ids(page)
            && |rest| == |ReadyAfter(table, startTime, cursor)| - batchSize
  {
    var after, last := Replay(policies, table, attempts), page[|page| - 1].id;
    ReplayKeys(policies, table, attempts);
    assert page[|page| - 1] in page;
    forall id | id in table && id > last ensures after[id] == table[id] {
      ReplayElsewhere(policies, table, attempts, id);
    }
    assert Ids(page) <= ReadyAfter(table, startTime, cursor);
    assert forall r | r in ReadyAfter(table, startTime, cursor) && r > last :: r !in Ids(page);
    assert ReadyAfter(after, startTime, last) == ReadyAfter(table, startTime, cursor) - Ids(page);
    PageIds(page);
    DifferenceSize(ReadyAfter(table, startTime, cursor), Ids(page));
  }

  lemma DifferenceSize(a: set<nat>, b: set<nat>)
    requires b <= a
    ensures |a - b| == |a| - |b|
  {
    assert a == (a - b) + b;
  }
}
