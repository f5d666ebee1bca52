/**
 What an index asks of the buffer pool, request by request: the pages it fetches, allocates,
 writes and unpins, the pins it holds meanwhile, and the writes it has not reported yet.
 */
module PageTrace {
  import opened Storage
  import opened BTreePage
  import opened BTreeState

  datatype PageOp =
    | FetchOp(p: PageId)
    | NewOp(p: PageId)
    | WriteOp(p: PageId, pg: Page)
    | UnpinOp(p: PageId, dirty: bool)

  /** The index's account with the pool. `peak` is the most pins held at once. */
  datatype Account = Account(pages: Table, total: nat, pins: multiset<PageId>, peak: nat, unreported: set<PageId>)

  function Max(a: nat, b: nat): nat {
    if a < b then b else a
  }

  /**
   The client protocol: only pages of the index are fetched, a page is written only under a pin,
   and the last pin on a written page reports the write.
   */
  predicate Allowed(c: Config, a: Account, op: PageOp) {
    match op
    case FetchOp(p) => p in a.pages
    case NewOp(p) => p == NextId(c, a.total)
    case WriteOp(p, _) => p in a.pins
    case UnpinOp(p, dirty) => p in a.pins && (p in a.unreported && a.pins[p] == 1 ==> dirty)
  }

  function Do(a: Account, op: PageOp): Account {
    match op
    case FetchOp(p) => a.(pins := a.pins + multiset{p}, peak := Max(a.peak, |a.pins| + 1))
    case NewOp(p) => a.(total := a.total + 1, pins := a.pins + multiset{p}, peak := Max(a.peak, |a.pins| + 1))
    case WriteOp(p, pg) => a.(pages := a.pages[p := pg], unreported := a.unreported + {p})
    case UnpinOp(p, dirty) =>
      a.(pins := a.pins - multiset{p}, unreported := if dirty then a.unreported - {p} else a.unreported)
  }

  /** The account after all requests. */
  function After(a: Account, ops: seq<PageOp>): Account {
    if ops == [] then a else Do(After(a, ops[..|ops| - 1]), ops[|ops| - 1])
  }

  /** Every request is allowed when its turn comes. */
  predicate Legal(c: Config, a: Account, ops: seq<PageOp>) {
    ops == [] ||
    (Legal(c, a, ops[..|ops| - 1]) && Allowed(c, After(a, ops[..|ops| - 1]), ops[|ops| - 1]))
  }

  predicate Leads(c: Config, from: Account, ops: seq<PageOp>, to: Account) {
    Legal(c, from, ops) && After(from, ops) == to
  }

  lemma {:induction false} LeadsOn(c: Config, from: Account, ops: seq<PageOp>, to: Account, op: PageOp)
    requires Leads(c, from, ops, to) && Allowed(c, to, op)
    ensures Leads(c, from, ops + [op], Do(to, op))
  {
    assert (ops + [op])[..|ops|] == ops;
  }

  lemma {:induction false} PeakGrows(a: Account, op: PageOp)
    ensures a.peak <= Do(a, op).peak
  {
  }

  /** The account as the requests are made one by one. */
  lemma {:induction false} AfterStep(c: Config, from: Account, ops: seq<PageOp>, i: nat)
    requires Legal(c, from, ops) && i < |ops|
    ensures Legal(c, from, ops[..i]) && Allowed(c, After(from, ops[..i]), ops[i])
    ensures After(from, ops[..i + 1]) == Do(After(from, ops[..i]), ops[i])
    ensures After(from, ops[..i + 1]).peak <= After(from, ops).peak
    decreases |ops|
  {
    hide Allowed, Do;
    var n := |ops| - 1;
    if i < n {
      AfterStep(c, from, ops[..n], i);
      PeakGrows(After(from, ops[..n]), ops[n]);
      assert ops[..n][..i] == ops[..i] && ops[..n][..i + 1] == ops[..i + 1];
    } else {
      assert ops[..i + 1] == ops && ops[..i + 1][..i] == ops[..i];
    }
  }

  /** An index that began without pins never holds more than its peak, and only pages of its own file. */
  lemma {:induction false} AccountKeeps(c: Config, from: Account, ops: seq<PageOp>)
    requires Legal(c, from, ops) && from.pins == multiset{} && IdsOk(c, from.pages, from.total)
    ensures var to := After(from, ops);
            && |to.pins| <= to.peak
            && (forall p :: p in to.pages ==> p.fileId == c.fileId)
            && (forall p :: p in to.pins ==> p.fileId == c.fileId)
  {
    if ops != [] {
      AccountKeeps(c, from, ops[..|ops| - 1]);
    }
  }
}
