/**
 * The transactions table (src/components/ofx/TransactionsTable.tsx): the rows it shows
 * (the query filter, then an in-place sort of the copy by the chosen column and
 * direction), the state of the sort header, and the heat shading of the amounts.
 * Rendering and `highlight` are not modelled.
 */
module TransactionsTable {
  import opened Wrappers
  import opened Strings
  import opened OFXParser

  // ---------------------------------------------------------------------------
  // The query filter
  // ---------------------------------------------------------------------------

  /** `query.trim().toLowerCase()`. */
  function NormalizeQuery(query: string): (q: string)
    ensures |q| == |Trim(query)|
    ensures forall i :: 0 <= i < |q| ==> q[i] == LowerChar(Trim(query)[i])
  {
    ToLower(Trim(query))
  }

  /** `(tr.name || tr.memo || "").toLowerCase().includes(q)`. */
  predicate Matches(t: Transaction, q: string) {
    Contains(ToLower(Description(t)), q)
  }

  /** `transactions.filter(…)`: the matching transactions, in their order. */
  function FilterMatching(ts: seq<Transaction>, q: string): (r: seq<Transaction>)
    ensures |r| <= |ts|
    ensures forall t :: multiset(r)[t] == if Matches(t, q) then multiset(ts)[t] else 0
  {
    if ts == [] then []
    else
      var t := ts[|ts| - 1];
      assert ts == ts[..|ts| - 1] + [t];
      FilterMatching(ts[..|ts| - 1], q) + (if Matches(t, q) then [t] else [])
  }

  /** `q ? transactions.filter(…) : transactions.slice()`: the rows before sorting. */
  function Kept(ts: seq<Transaction>, query: string): (r: seq<Transaction>)
    ensures NormalizeQuery(query) == [] ==> r == ts
    ensures NormalizeQuery(query) != [] ==> r == FilterMatching(ts, NormalizeQuery(query))
  {
    var q := NormalizeQuery(query);
    if q == [] then ts else FilterMatching(ts, q)
  }

  /** A blank query keeps every transaction; otherwise exactly the matching ones, as often as they occur. */
  lemma KeptIffMatches(ts: seq<Transaction>, query: string, t: Transaction)
    ensures Trim(query) == [] ==> Kept(ts, query) == ts
    ensures Trim(query) != [] ==>
              (t in Kept(ts, query) <==> t in ts && Matches(t, NormalizeQuery(query)))
    ensures multiset(Kept(ts, query))[t] <= multiset(ts)[t]
  {
    var r := Kept(ts, query);
    assert t in r <==> multiset(r)[t] > 0;
    assert t in ts <==> multiset(ts)[t] > 0;
  }

  // ---------------------------------------------------------------------------
  // The comparator of `base.sort`
  // ---------------------------------------------------------------------------

  /** The sortable columns: `SortKey`. */
  datatype SortKey = DtPosted | Amount | TrnType

  datatype SortDir = Asc | Desc

  /** `(a.dtPosted || "").slice(0, 8)`: dates compare on their day only. */
  function DateKey(t: Transaction): (d: string)
    ensures |d| == if |t.dtPosted| < 8 then |t.dtPosted| else 8
    ensures d == t.dtPosted[..|d|]
  {
    Prefix(t.dtPosted, 8)
  }

  /** `va < vb` for the chosen column: strings by character order, amounts as numbers. */
  predicate KeyLess(x: Transaction, y: Transaction, key: SortKey) {
    match key
    case DtPosted => Less(DateKey(x), DateKey(y))
    case TrnType => Less(x.trnType, y.trnType)
    case Amount => x.amount < y.amount
  }

  /** The comparator: negative when `x` goes first, positive when `y` does. */
  function Compare(x: Transaction, y: Transaction, key: SortKey, dir: SortDir): (c: int)
    ensures -1 <= c <= 1
  {
    if KeyLess(x, y, key) then (if dir == Asc then -1 else 1)
    else if KeyLess(y, x, key) then (if dir == Asc then 1 else -1)
    else 0
  }

  /** `x` may stay before `y`: the comparator does not ask to swap them. */
  function InOrder(key: SortKey, dir: SortDir): (le: (Transaction, Transaction) -> bool) {
    (x: Transaction, y: Transaction) => Compare(x, y, key, dir) <= 0
  }

  /** In order means: not above in ascending order, not below in descending order. */
  lemma InOrderMeaning(key: SortKey, dir: SortDir, x: Transaction, y: Transaction)
    ensures InOrder(key, dir)(x, y) <==> if dir == Asc then !KeyLess(y, x, key) else !KeyLess(x, y, key)
  {
    KeyLessAsymmetric(x, y, key);
  }

  lemma KeyLessAsymmetric(x: Transaction, y: Transaction, key: SortKey)
    ensures !(KeyLess(x, y, key) && KeyLess(y, x, key))
  {
    match key
    case DtPosted => if Less(DateKey(x), DateKey(y)) { LessAsymmetric(DateKey(x), DateKey(y)); }
    case TrnType => if Less(x.trnType, y.trnType) { LessAsymmetric(x.trnType, y.trnType); }
    case Amount =>
  }

  /** If `z` is below `x`, then any `y` is above `z` or below `x`. */
  lemma KeyLessNegativeTransitive(x: Transaction, y: Transaction, z: Transaction, key: SortKey)
    requires KeyLess(z, x, key)
    ensures KeyLess(z, y, key) || KeyLess(y, x, key)
  {
    match key
    case DtPosted => LessNegativeTransitive(DateKey(z), DateKey(y), DateKey(x));
    case TrnType => LessNegativeTransitive(z.trnType, y.trnType, x.trnType);
    case Amount =>
  }

  /** A relation by which a sequence can be sorted: total and transitive. */
  ghost predicate IsTotalPreorder<T(!new)>(le: (T, T) -> bool) {
    && (forall x, y :: le(x, y) || le(y, x))
    && (forall x, y, z :: le(x, y) && le(y, z) ==> le(x, z))
  }

  /** The comparator of the table orders consistently, for every column and direction. */
  lemma InOrderIsTotalPreorder(key: SortKey, dir: SortDir)
    ensures IsTotalPreorder(InOrder(key, dir))
  {
    var le := InOrder(key, dir);
    forall x, y ensures le(x, y) || le(y, x) {
      InOrderMeaning(key, dir, x, y);
      InOrderMeaning(key, dir, y, x);
      KeyLessAsymmetric(x, y, key);
    }
    forall x, y, z | le(x, y) && le(y, z) ensures le(x, z) {
      InOrderMeaning(key, dir, x, y);
      InOrderMeaning(key, dir, y, z);
      InOrderMeaning(key, dir, x, z);
      if dir == Asc {
        if KeyLess(z, x, key) { KeyLessNegativeTransitive(x, y, z, key); }
      } else {
        if KeyLess(x, z, key) { KeyLessNegativeTransitive(z, y, x, key); }
      }
    }
  }

  /** Every pair of elements is in order. */
  ghost predicate Sorted<T>(s: seq<T>, le: (T, T) -> bool) {
    forall i, j :: 0 <= i < j < |s| ==> le(s[i], s[j])
  }

  // ---------------------------------------------------------------------------
  // `base.sort(…)`, in place
  // ---------------------------------------------------------------------------

  /** Sorts `a` in place by `le`; each element moves left past the elements `le` puts after it. */
  method InsertionSort<T(!new)>(a: array<T>, le: (T, T) -> bool)
    requires IsTotalPreorder(le)
    modifies a
    ensures Sorted(a[..], le)
    ensures multiset(a[..]) == multiset(old(a[..]))
  {
    var i := 0;
    while i < a.Length
      invariant 0 <= i <= a.Length
      invariant forall p, q :: 0 <= p < q < i ==> le(a[p], a[q])
      invariant multiset(a[..]) == multiset(old(a[..]))
    {
      var j := i;
      while j > 0 && !le(a[j - 1], a[j])
        invariant 0 <= j <= i
        invariant forall p, q :: 0 <= p < q <= i && p != j && q != j ==> le(a[p], a[q])
        invariant forall q :: j < q <= i ==> le(a[j], a[q])
        invariant multiset(a[..]) == multiset(old(a[..]))
      {
        a[j - 1], a[j] := a[j], a[j - 1];
        j := j - 1;
      }
      i := i + 1;
    }
  }

  /**
   * The `filtered` memo: the kept rows, copied, then sorted by the column and direction.
   * The transactions passed in are a value here, so sorting cannot reorder them.
   */
  method Filtered(ts: seq<Transaction>, query: string, key: SortKey, dir: SortDir) returns (r: seq<Transaction>)
    ensures multiset(r) == multiset(Kept(ts, query))
    ensures Sorted(r, InOrder(key, dir))
  {
    var base := Kept(ts, query);
    var a := new Transaction[|base|](i requires 0 <= i < |base| => base[i]);
    assert a[..] == base;
    InOrderIsTotalPreorder(key, dir);
    InsertionSort(a, InOrder(key, dir));
    r := a[..];
  }

  /** The rows read in ascending or descending order of the chosen column. */
  lemma SortedMeaning(r: seq<Transaction>, key: SortKey, dir: SortDir, i: nat, j: nat)
    requires Sorted(r, InOrder(key, dir)) && i < j < |r|
    ensures dir == Asc ==> !KeyLess(r[j], r[i], key)
    ensures dir == Desc ==> !KeyLess(r[i], r[j], key)
  {
    InOrderMeaning(key, dir, r[i], r[j]);
  }

  // ---------------------------------------------------------------------------
  // `headerSortBtn`: the sort state
  // ---------------------------------------------------------------------------

  datatype SortState = SortState(key: SortKey, dir: SortDir)

  /** `useState("dtPosted")`, `useState("desc")`. */
  const InitialSort := SortState(DtPosted, Desc)

  /** A click on the header of column `k`: the active column flips direction, another one becomes active, descending. */
  function Click(s: SortState, k: SortKey): (r: SortState)
    ensures r.key == k
    ensures s.key == k ==> r.dir != s.dir
    ensures s.key != k ==> r.dir == Desc
  {
    if s.key == k then SortState(k, if s.dir == Asc then Desc else Asc)
    else SortState(k, Desc)
  }

  /** Clicking the same header twice restores the state. */
  lemma ClickTwice(s: SortState)
    ensures Click(Click(s, s.key), s.key) == s
  {
  }

  /** After a first click on a new column, a second one sorts it ascending. */
  lemma ClickNewColumn(s: SortState, k: SortKey)
    requires s.key != k
    ensures Click(s, k) == SortState(k, Desc)
    ensures Click(Click(s, k), k) == SortState(k, Asc)
  {
  }

  // ---------------------------------------------------------------------------
  // The heat shading
  // ---------------------------------------------------------------------------

  function Max(a: real, b: real): (m: real)
    ensures m >= a && m >= b && (m == a || m == b)
  {
    if a >= b then a else b
  }

  /** `Math.max(1, ...transactions.map((t) => Math.abs(t.amount)))`. */
  function MaxAbs(ts: seq<Transaction>): (m: real)
    ensures m >= 1.0
    ensures forall k :: 0 <= k < |ts| ==> Abs(ts[k].amount) <= m
    ensures m == 1.0 || exists k :: 0 <= k < |ts| && m == Abs(ts[k].amount)
  {
    if ts == [] then 1.0
    else
      var prev := MaxAbs(ts[..|ts| - 1]);
      assert forall k :: 0 <= k < |ts| - 1 ==> ts[..|ts| - 1][k] == ts[k];
      Max(prev, Abs(ts[|ts| - 1].amount))
  }

  /** `Math.min(1, Math.abs(tr.amount) / maxAbs)`. */
  function Pct(amount: real, maxAbs: real): (p: real)
    requires maxAbs > 0.0
    ensures 0.0 <= p <= 1.0
    ensures Abs(amount) <= maxAbs ==> p == Abs(amount) / maxAbs
    ensures Abs(amount) >= maxAbs ==> p == 1.0
  {
    var r := Abs(amount) / maxAbs;
    if r < 1.0 then r else 1.0
  }

  /** The row of a transaction of the list never hits the cap: its share is its magnitude over the largest. */
  lemma PctOfListed(ts: seq<Transaction>, k: nat)
    requires k < |ts|
    ensures Pct(ts[k].amount, MaxAbs(ts)) == Abs(ts[k].amount) / MaxAbs(ts)
  {
  }

  /** `Math.floor(credit ? 130 - 60 * (1 - pct) : 0 + 40 * (1 - pct))`: greens for credits, reds for debits. */
  function Hue(credit: bool, pct: real): (h: int)
    requires 0.0 <= pct <= 1.0
    ensures credit ==> 70 <= h <= 130
    ensures !credit ==> 0 <= h <= 40
  {
    if credit then (130.0 - 60.0 * (1.0 - pct)).Floor else (40.0 * (1.0 - pct)).Floor
  }

  /** A larger share gives a greener credit (hue up towards 130) and a redder debit (hue down towards 0). */
  lemma HueMonotone(credit: bool, p: real, q: real)
    requires 0.0 <= p <= q <= 1.0
    ensures credit ==> Hue(credit, p) <= Hue(credit, q)
    ensures !credit ==> Hue(credit, p) >= Hue(credit, q)
  {
    FloorMonotone(130.0 - 60.0 * (1.0 - p), 130.0 - 60.0 * (1.0 - q));
    FloorMonotone(40.0 * (1.0 - q), 40.0 * (1.0 - p));
  }

  lemma FloorMonotone(x: real, y: real)
    requires x <= y
    ensures x.Floor <= y.Floor
  {
  }
}
