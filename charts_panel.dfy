/**
 * The charts panel (src/components/dashboard/ChartsPanel.tsx): the data behind its three
 * charts. `InferCategory` is an ordered keyword classifier, `TypeCounts` counts credits
 * and debits, `BalanceSeries` accumulates the amounts, and `Categories` buckets the
 * magnitudes of the amounts by category in an insertion-ordered map.
 */
module ChartsPanel {
  import opened Wrappers
  import opened Strings
  import opened OFXParser
  import SummaryCards

  // ---------------------------------------------------------------------------
  // `inferCategory`
  // ---------------------------------------------------------------------------

  /** `/w1|w2|…/.test(t)`: one of the alternatives occurs somewhere in `t`. */
  predicate AnyOccurs(t: string, words: seq<string>) {
    exists k :: 0 <= k < |words| && Contains(t, words[k])
  }

  const Compras := "Compras"
  const Pagamentos := "Pagamentos"
  const Transporte := "Transporte"
  const Alimentacao := "Alimentação"
  const Salario := "Salário"
  const Outros := "Outros"

  /** The rules in the order they are tried: a category and its keywords. */
  const Rules: seq<(string, seq<string>)> := [
    (Compras, ["mercado", "super", "market", "grocery"]),
    (Pagamentos, ["pagamento", "boleto", "bill", "payment"]),
    (Transporte, ["uber", "99", "transporte", "bus", "metro", "taxi"]),
    (Alimentacao, ["restaurante", "food", "lanche", "pizza", "sushi"]),
    (Salario, ["salario", "salary", "payroll"])
  ]

  /** `inferCategory(name)`, with `name || ""` already applied: the chain of tests as written. */
  function InferCategory(name: string): (c: string)
    ensures c in {Compras, Pagamentos, Transporte, Alimentacao, Salario, Outros}
  {
    var t := ToLower(name);
    if AnyOccurs(t, Rules[0].1) then Compras
    else if AnyOccurs(t, Rules[1].1) then Pagamentos
    else if AnyOccurs(t, Rules[2].1) then Transporte
    else if AnyOccurs(t, Rules[3].1) then Alimentacao
    else if AnyOccurs(t, Rules[4].1) then Salario
    else Outros
  }

  /** A reference classifier: the category of the first rule from `from` on that matches. */
  function FirstMatch(rules: seq<(string, seq<string>)>, t: string, from: nat): (c: string)
    decreases |rules| - from
  {
    if from >= |rules| then Outros
    else if AnyOccurs(t, rules[from].1) then rules[from].0
    else FirstMatch(rules, t, from + 1)
  }

  /** The first rule that matches decides; the ones after it are not consulted. */
  lemma {:induction false} FirstMatchIsFirst(rules: seq<(string, seq<string>)>, t: string, from: nat, i: nat)
    requires from <= i < |rules| && AnyOccurs(t, rules[i].1)
    requires forall j :: from <= j < i ==> !AnyOccurs(t, rules[j].1)
    decreases i - from
    ensures FirstMatch(rules, t, from) == rules[i].0
  {
    if from < i {
      FirstMatchIsFirst(rules, t, from + 1, i);
    }
  }

  /** When no rule matches, the category is `Outros`. */
  lemma {:induction false} FirstMatchNone(rules: seq<(string, seq<string>)>, t: string, from: nat)
    requires forall j :: from <= j < |rules| ==> !AnyOccurs(t, rules[j].1)
    decreases |rules| - from
    ensures FirstMatch(rules, t, from) == Outros
  {
    if from < |rules| {
      FirstMatchNone(rules, t, from + 1);
    }
  }

  /** The chain of tests is the first-match rule over the table, applied to the lower-cased name. */
  lemma InferCategoryIsFirstMatch(name: string)
    ensures InferCategory(name) == FirstMatch(Rules, ToLower(name), 0)
  {
    var t := ToLower(name);
    if AnyOccurs(t, Rules[0].1) { FirstMatchIsFirst(Rules, t, 0, 0); }
    else if AnyOccurs(t, Rules[1].1) { FirstMatchIsFirst(Rules, t, 0, 1); }
    else if AnyOccurs(t, Rules[2].1) { FirstMatchIsFirst(Rules, t, 0, 2); }
    else if AnyOccurs(t, Rules[3].1) { FirstMatchIsFirst(Rules, t, 0, 3); }
    else if AnyOccurs(t, Rules[4].1) { FirstMatchIsFirst(Rules, t, 0, 4); }
    else { FirstMatchNone(Rules, t, 0); }
  }

  /** An earlier rule wins over a later one: a supermarket bill is a purchase, not a payment. */
  lemma InferCategoryExample()
    ensures InferCategory("Pagamento SUPERMERCADO") == Compras
  {
    var t := ToLower("Pagamento SUPERMERCADO");
    assert t == "pagamento supermercado";
    assert Rules[0].1[1] == "super";
    assert t[10..15] == "super";
    assert OccursAt(t, Rules[0].1[1], 10);
  }

  /** The category of a transaction: `inferCategory(t.name || t.memo)`. */
  function CategoryOf(t: Transaction): string {
    InferCategory(Description(t))
  }

  // ---------------------------------------------------------------------------
  // `typeData`
  // ---------------------------------------------------------------------------

  /** The test of this chart: `(t.trnType || "").includes("CREDIT")`, with case. */
  predicate HasCreditType(t: Transaction) {
    Contains(t.trnType, "CREDIT")
  }

  /** The two slices of the type chart. */
  datatype TypeCounts = TypeCounts(credits: nat, debits: nat)

  function TypeData(ts: seq<Transaction>): (r: TypeCounts)
    ensures r.credits + r.debits == |ts|
  {
    var credits := CountIf(ts, HasCreditType);
    TypeCounts(credits, |ts| - credits)
  }

  /** An element satisfying a stronger test also satisfies a weaker one, so it counts no fewer. */
  lemma {:induction false} CountIfWeaker<T>(xs: seq<T>, p: T -> bool, q: T -> bool)
    requires forall x :: p(x) ==> q(x)
    decreases |xs|
    ensures CountIf(xs, p) <= CountIf(xs, q)
  {
    if xs != [] {
      CountIfWeaker(xs[..|xs| - 1], p, q);
    }
  }

  /**
   * The credits of the type chart, tested with case, are never more than the transactions the
   * table and the summary cards call credits, which are tested on the upper-cased type.
   */
  lemma TypeCreditsAtMostCredits(ts: seq<Transaction>)
    ensures TypeData(ts).credits <= CountIf(ts, (t: Transaction) => IsCredit(t.trnType))
  {
    forall t: Transaction | HasCreditType(t) ensures IsCredit(t.trnType) {
      ContainsUpper(t.trnType, "CREDIT");
    }
    CountIfWeaker(ts, HasCreditType, (t: Transaction) => IsCredit(t.trnType));
  }

  /** On a type that is already upper-cased, as the parser leaves every type, the two tests agree. */
  lemma CreditTestsAgreeOnUpperCased(t: Transaction)
    requires IsUpperCased(t.trnType)
    ensures HasCreditType(t) <==> IsCredit(t.trnType)
  {
    UpperCasedIsFixpoint(t.trnType);
  }

  /** The two tests disagree on a lower-case type. */
  lemma TypeTestsDiffer()
    ensures var t := Transaction("credit", "", 0.0, "x", None, None);
            IsCredit(t.trnType) && !HasCreditType(t)
  {
    var t := Transaction("credit", "", 0.0, "x", None, None);
    assert ToUpper("credit") == "CREDIT";
    assert OccursAt(ToUpper("credit"), "CREDIT", 0);
    assert !HasCreditType(t) by {
      forall i | 0 <= i <= |t.trnType| ensures !OccursAt(t.trnType, "CREDIT", i) {
        if i == 0 { assert t.trnType[0] != "CREDIT"[0]; }
      }
    }
  }

  // ---------------------------------------------------------------------------
  // `balanceSeries`
  // ---------------------------------------------------------------------------

  /** One point of the balance line: `{ i, balance }`. */
  datatype BalancePoint = BalancePoint(i: nat, balance: real)

  /** The sum of the amounts. */
  function SumAmounts(ts: seq<Transaction>): real {
    if ts == [] then 0.0 else SumAmounts(ts[..|ts| - 1]) + ts[|ts| - 1].amount
  }

  /** `transactions.map` with the accumulator `acc`: entry `i` holds the sum of the first `i + 1` amounts. */
  method BalanceSeries(ts: seq<Transaction>) returns (r: seq<BalancePoint>)
    ensures |r| == |ts|
    ensures forall i :: 0 <= i < |ts| ==> r[i] == BalancePoint(i, SumAmounts(ts[..i + 1]))
    ensures |r| > 0 ==> r[|r| - 1].balance == SumAmounts(ts)
  {
    var acc := 0.0;
    r := [];
    var i := 0;
    while i < |ts|
      invariant 0 <= i <= |ts| && |r| == i
      invariant acc == SumAmounts(ts[..i])
      invariant forall k :: 0 <= k < i ==> r[k] == BalancePoint(k, SumAmounts(ts[..k + 1]))
    {
      assert ts[..i + 1][..i] == ts[..i];
      acc := acc + ts[i].amount;
      r := r + [BalancePoint(i, acc)];
      i := i + 1;
    }
    assert ts[..|ts|] == ts;
  }

  /** Consecutive points differ by the amount of the later transaction. */
  lemma BalanceSteps(ts: seq<Transaction>, i: nat)
    requires i < |ts|
    ensures SumAmounts(ts[..i + 1]) - SumAmounts(ts[..i]) == ts[i].amount
  {
    assert ts[..i + 1][..i] == ts[..i];
  }

  /**
   * When every debit is recorded with a non-positive amount, the balance line ends at the net
   * of the summary cards.
   */
  lemma {:induction false} BalanceIsNet(ts: seq<Transaction>)
    requires forall k :: 0 <= k < |ts| ==> IsCredit(ts[k].trnType) || ts[k].amount <= 0.0
    decreases |ts|
    ensures SumAmounts(ts) == SummaryCards.Credits(ts) - SummaryCards.Debits(ts)
  {
    if ts != [] {
      BalanceIsNet(ts[..|ts| - 1]);
    }
  }

  // ---------------------------------------------------------------------------
  // `categories`
  // ---------------------------------------------------------------------------

  /** The category of every transaction, in order. */
  function CategoriesOf(ts: seq<Transaction>): (cs: seq<string>)
    ensures |cs| == |ts| && forall k :: 0 <= k < |ts| ==> cs[k] == CategoryOf(ts[k])
  {
    seq(|ts|, k requires 0 <= k < |ts| => CategoryOf(ts[k]))
  }

  /** The magnitude of every amount, in order: what each transaction adds to its bucket. */
  function Magnitudes(ts: seq<Transaction>): (ws: seq<real>)
    ensures |ws| == |ts| && forall k :: 0 <= k < |ts| ==> ws[k] == Abs(ts[k].amount) && ws[k] >= 0.0
  {
    seq(|ts|, k requires 0 <= k < |ts| => Abs(ts[k].amount))
  }

  /** Both per-transaction sequences of a longer prefix extend those of the shorter one. */
  lemma PrefixStep(ts: seq<Transaction>, i: nat)
    requires i < |ts|
    ensures CategoriesOf(ts[..i]) + [CategoryOf(ts[i])] == CategoriesOf(ts[..i + 1])
    ensures Magnitudes(ts[..i]) + [Abs(ts[i].amount)] == Magnitudes(ts[..i + 1])
  {
  }

  /** The distinct elements of `xs`, each where it first occurs. */
  function FirstOccurrences(xs: seq<string>): (r: seq<string>)
    ensures forall i, j :: 0 <= i < j < |r| ==> r[i] != r[j]
    ensures forall x :: x in r <==> x in xs
  {
    if xs == [] then []
    else
      var prev := FirstOccurrences(xs[..|xs| - 1]);
      var x := xs[|xs| - 1];
      assert forall y :: y in xs <==> y in xs[..|xs| - 1] || y == x by {
        assert xs == xs[..|xs| - 1] + [x];
      }
      if x in prev then prev else prev + [x]
  }

  /** The sum of the weights whose key is `c`. */
  function BucketTotal(cs: seq<string>, ws: seq<real>, c: string): (v: real)
    requires |cs| == |ws|
    ensures (forall k :: 0 <= k < |ws| ==> ws[k] >= 0.0) ==> v >= 0.0
  {
    if cs == [] then 0.0
    else BucketTotal(cs[..|cs| - 1], ws[..|ws| - 1], c) + (if cs[|cs| - 1] == c then ws[|ws| - 1] else 0.0)
  }

  /** The sum of the magnitudes of the amounts classified under `c`. */
  function CategoryTotal(ts: seq<Transaction>, c: string): (v: real)
    ensures v >= 0.0
  {
    BucketTotal(CategoriesOf(ts), Magnitudes(ts), c)
  }

  /** Each key of `keys` with its total. */
  function BucketEntries(keys: seq<string>, cs: seq<string>, ws: seq<real>): (r: seq<(string, real)>)
    requires |cs| == |ws|
    ensures |r| == |keys| && forall k :: 0 <= k < |keys| ==> r[k] == (keys[k], BucketTotal(cs, ws, keys[k]))
  {
    seq(|keys|, k requires 0 <= k < |keys| => (keys[k], BucketTotal(cs, ws, keys[k])))
  }

  /** `Array.from(map)` for the map the loop fills: each category that occurs, in first-occurrence order, with its total. */
  function CategoryEntries(ts: seq<Transaction>): (r: seq<(string, real)>)
    ensures |r| == |FirstOccurrences(CategoriesOf(ts))|
    ensures forall k :: 0 <= k < |r| ==> r[k].0 == FirstOccurrences(CategoriesOf(ts))[k] && r[k].1 == CategoryTotal(ts, r[k].0)
  {
    BucketEntries(FirstOccurrences(CategoriesOf(ts)), CategoriesOf(ts), Magnitudes(ts))
  }

  /**
   * A JavaScript `Map` from category to total: its entries in the order their keys were
   * first set, and the value of each key.
   */
  datatype OrderedMap = OrderedMap(keys: seq<string>, values: map<string, real>) {
    /** Every key is listed once and has a value. */
    ghost predicate Valid() {
      (forall c :: c in values <==> c in keys) && forall i, j :: 0 <= i < j < |keys| ==> keys[i] != keys[j]
    }

    /** `map.get(c) || 0`. */
    function GetOrZero(c: string): (v: real)
      ensures c in values ==> v == values[c]
      ensures c !in values ==> v == 0.0
    {
      if c in values then values[c] else 0.0
    }

    /** `map.set(c, v)`: an existing key keeps its place, a new one goes last. */
    function Set(c: string, v: real): (m: OrderedMap)
      ensures m.values == values[c := v]
      ensures m.keys == if c in keys then keys else keys + [c]
    {
      OrderedMap(if c in keys then keys else keys + [c], values[c := v])
    }

    /** `Array.from(map, ([name, value]) => …)`. */
    function Entries(): (r: seq<(string, real)>)
      requires Valid()
      ensures |r| == |keys| && forall k :: 0 <= k < |keys| ==> r[k] == (keys[k], values[keys[k]])
    {
      seq(|keys|, k requires 0 <= k < |keys| => (keys[k], values[keys[k]]))
    }
  }

  /** The `forEach` loop that fills the map: `map.set(c, (map.get(c) || 0) + |amount|)`. */
  method Categories(ts: seq<Transaction>) returns (r: seq<(string, real)>)
    ensures r == CategoryEntries(ts)
  {
    var m := OrderedMap([], map[]);
    var i := 0;
    while i < |ts|
      invariant 0 <= i <= |ts|
      invariant Tallied(m, CategoriesOf(ts[..i]), Magnitudes(ts[..i]))
    {
      var c := CategoryOf(ts[i]);
      var w := Abs(ts[i].amount);
      TallyStep(m, CategoriesOf(ts[..i]), Magnitudes(ts[..i]), c, w);
      PrefixStep(ts, i);
      m := m.Set(c, m.GetOrZero(c) + w);
      i := i + 1;
    }
    assert ts[..i] == ts;
    r := m.Entries();
  }

  /** What the loop has built from the keys `cs` and weights `ws`: the keys in first-occurrence order, each with its total. */
  ghost predicate Tallied(m: OrderedMap, cs: seq<string>, ws: seq<real>) {
    && |cs| == |ws|
    && m.Valid()
    && m.keys == FirstOccurrences(cs)
    && (forall c :: c in m.values ==> m.values[c] == BucketTotal(cs, ws, c))
  }

  /** One turn of the loop keeps `Tallied`. */
  lemma TallyStep(m: OrderedMap, cs: seq<string>, ws: seq<real>, c: string, w: real)
    requires Tallied(m, cs, ws)
    ensures Tallied(m.Set(c, m.GetOrZero(c) + w), cs + [c], ws + [w])
  {
    SetKeepsValid(m, c, m.GetOrZero(c) + w);
    FirstOccurrencesSnoc(cs, c);
    TallyValues(m, cs, ws, c, w);
  }

  /** After one turn, every key's value is its total over the longer sequences. */
  lemma TallyValues(m: OrderedMap, cs: seq<string>, ws: seq<real>, c: string, w: real)
    requires Tallied(m, cs, ws)
    ensures var after := m.values[c := m.GetOrZero(c) + w];
            forall d :: d in after ==> after[d] == BucketTotal(cs + [c], ws + [w], d)
  {
    var after := m.values[c := m.GetOrZero(c) + w];
    forall d | d in after
      ensures after[d] == BucketTotal(cs + [c], ws + [w], d)
    {
      TallyValue(m, cs, ws, c, w, d);
    }
  }

  /** After one turn, the value of each key is its total over the longer sequences. */
  lemma TallyValue(m: OrderedMap, cs: seq<string>, ws: seq<real>, c: string, w: real, d: string)
    requires Tallied(m, cs, ws) && d in m.values[c := m.GetOrZero(c) + w]
    ensures m.values[c := m.GetOrZero(c) + w][d] == BucketTotal(cs + [c], ws + [w], d)
  {
    BucketTotalSnoc(cs, ws, c, w, d);
    if d == c && c !in m.values {
      AbsentKeyTotal(cs, ws, c);
    }
  }

  /** Setting a key keeps every key listed once with a value. */
  lemma SetKeepsValid(m: OrderedMap, c: string, v: real)
    requires m.Valid()
    ensures m.Set(c, v).Valid()
  {
  }

  /** One more key: it is appended to the distinct keys when it is new. */
  lemma FirstOccurrencesSnoc(cs: seq<string>, c: string)
    ensures FirstOccurrences(cs + [c]) == if c in FirstOccurrences(cs) then FirstOccurrences(cs) else FirstOccurrences(cs) + [c]
  {
    assert (cs + [c])[..|cs|] == cs;
  }

  /** One more weight: it joins the total of its own key only. */
  lemma BucketTotalSnoc(cs: seq<string>, ws: seq<real>, c: string, w: real, d: string)
    requires |cs| == |ws|
    ensures BucketTotal(cs + [c], ws + [w], d) == BucketTotal(cs, ws, d) + (if d == c then w else 0.0)
  {
    assert (cs + [c])[..|cs|] == cs;
    assert (ws + [w])[..|ws|] == ws;
  }

  /** One more key and weight: the key is appended if new, and only its own total grows. */
  lemma BucketStep(cs: seq<string>, ws: seq<real>, c: string, w: real)
    requires |cs| == |ws|
    ensures FirstOccurrences(cs + [c]) == (if c in FirstOccurrences(cs) then FirstOccurrences(cs) else FirstOccurrences(cs) + [c])
    ensures forall d :: BucketTotal(cs + [c], ws + [w], d) == BucketTotal(cs, ws, d) + (if d == c then w else 0.0)
    ensures c !in cs ==> BucketTotal(cs, ws, c) == 0.0
  {
    FirstOccurrencesSnoc(cs, c);
    forall d ensures BucketTotal(cs + [c], ws + [w], d) == BucketTotal(cs, ws, d) + (if d == c then w else 0.0) {
      BucketTotalSnoc(cs, ws, c, w, d);
    }
    if c !in cs {
      AbsentKeyTotal(cs, ws, c);
    }
  }

  /** A key that does not occur has total 0. */
  lemma {:induction false} AbsentKeyTotal(cs: seq<string>, ws: seq<real>, c: string)
    requires |cs| == |ws| && c !in cs
    decreases |cs|
    ensures BucketTotal(cs, ws, c) == 0.0
  {
    if cs != [] {
      assert cs == cs[..|cs| - 1] + [cs[|cs| - 1]];
      AbsentKeyTotal(cs[..|cs| - 1], ws[..|ws| - 1], c);
    }
  }

  // ---------------------------------------------------------------------------
  // What the category chart promises
  // ---------------------------------------------------------------------------

  /** Where `x` first occurs in `xs`. */
  function FirstPos(xs: seq<string>, x: string): (p: nat)
    requires x in xs
    ensures p < |xs| && xs[p] == x && x !in xs[..p]
  {
    if x in xs[..|xs| - 1] then
      var p := FirstPos(xs[..|xs| - 1], x);
      assert xs[..p] == xs[..|xs| - 1][..p];
      p
    else |xs| - 1
  }

  /** The distinct keys come in the order of their first occurrences. */
  lemma {:induction false} FirstOccurrencesOrdered(xs: seq<string>, i: nat, j: nat)
    requires i < j < |FirstOccurrences(xs)|
    decreases |xs|
    ensures FirstPos(xs, FirstOccurrences(xs)[i]) < FirstPos(xs, FirstOccurrences(xs)[j])
  {
    var p := xs[..|xs| - 1];
    var fo := FirstOccurrences(p);
    var a, b := FirstOccurrences(xs)[i], FirstOccurrences(xs)[j];
    if j < |fo| {
      assert a == fo[i] && b == fo[j];
      FirstOccurrencesOrdered(p, i, j);
    } else {
      assert a == fo[i] && a in p;
      assert FirstPos(xs, a) == FirstPos(p, a);
    }
  }

  /** The sum of a sequence of weights. */
  function SumReals(ws: seq<real>): real {
    if ws == [] then 0.0 else SumReals(ws[..|ws| - 1]) + ws[|ws| - 1]
  }

  /** The sum of the values of the entries. */
  function SumValues(es: seq<(string, real)>): real {
    if es == [] then 0.0 else SumValues(es[..|es| - 1]) + es[|es| - 1].1
  }

  /** The total of all magnitudes: what the category chart divides among its slices. */
  function TotalMagnitude(ts: seq<Transaction>): real {
    SumReals(Magnitudes(ts))
  }

  /** One key more: its total joins the sum. */
  lemma EntriesSnoc(keys: seq<string>, k: string, cs: seq<string>, ws: seq<real>)
    requires |cs| == |ws|
    ensures SumValues(BucketEntries(keys + [k], cs, ws)) == SumValues(BucketEntries(keys, cs, ws)) + BucketTotal(cs, ws, k)
  {
    assert BucketEntries(keys + [k], cs, ws)[..|keys|] == BucketEntries(keys, cs, ws);
  }

  /** One weight more adds it to the sum of the entries once if its key is listed, and not otherwise. */
  lemma {:induction false} EntriesStep(keys: seq<string>, cs: seq<string>, ws: seq<real>, c: string, w: real)
    requires |cs| == |ws|
    requires forall i, j :: 0 <= i < j < |keys| ==> keys[i] != keys[j]
    decreases |keys|
    ensures SumValues(BucketEntries(keys, cs + [c], ws + [w]))
              == SumValues(BucketEntries(keys, cs, ws)) + (if c in keys then w else 0.0)
  {
    if keys != [] {
      var kp, k := keys[..|keys| - 1], keys[|keys| - 1];
      assert keys == kp + [k];
      assert c in keys <==> c in kp || c == k;
      assert k !in kp by {
        forall i | 0 <= i < |kp| ensures kp[i] != k { assert kp[i] == keys[i]; }
      }
      EntriesSnoc(kp, k, cs + [c], ws + [w]);
      EntriesSnoc(kp, k, cs, ws);
      BucketTotalSnoc(cs, ws, c, w, k);
      EntriesStep(kp, cs, ws, c, w);
    }
  }

  /** The totals of the distinct keys add up to the sum of all weights. */
  lemma {:induction false} BucketsSum(cs: seq<string>, ws: seq<real>)
    requires |cs| == |ws|
    decreases |cs|
    ensures SumValues(BucketEntries(FirstOccurrences(cs), cs, ws)) == SumReals(ws)
  {
    if cs != [] {
      var cp, c := cs[..|cs| - 1], cs[|cs| - 1];
      var wp, w := ws[..|ws| - 1], ws[|ws| - 1];
      assert cs == cp + [c] && ws == wp + [w];
      BucketsSum(cp, wp);
      FirstOccurrencesSnoc(cp, c);
      var fo := FirstOccurrences(cp);
      EntriesStep(fo, cp, wp, c, w);
      if c !in fo {
        EntriesSnoc(fo, c, cs, ws);
        BucketTotalSnoc(cp, wp, c, w, c);
        AbsentKeyTotal(cp, wp, c);
      }
    }
  }

  /** Every slice of the category chart is non-negative, and the slices add up to the total magnitude. */
  lemma CategoriesPartitionTotal(ts: seq<Transaction>)
    ensures forall k :: 0 <= k < |CategoryEntries(ts)| ==> CategoryEntries(ts)[k].1 >= 0.0
    ensures SumValues(CategoryEntries(ts)) == TotalMagnitude(ts)
  {
    BucketsSum(CategoriesOf(ts), Magnitudes(ts));
  }

  /** The chart lists exactly the categories that occur, each once, in the order they first occur. */
  lemma CategoriesInFirstOccurrenceOrder(ts: seq<Transaction>, i: nat, j: nat)
    requires i < j < |CategoryEntries(ts)|
    ensures CategoryEntries(ts)[i].0 != CategoryEntries(ts)[j].0
    ensures FirstPos(CategoriesOf(ts), CategoryEntries(ts)[i].0) < FirstPos(CategoriesOf(ts), CategoryEntries(ts)[j].0)
  {
    FirstOccurrencesOrdered(CategoriesOf(ts), i, j);
  }

  /** A category is charted iff some transaction falls under it. */
  lemma CategoriesAreThoseOccurring(ts: seq<Transaction>, c: string)
    ensures (exists k :: 0 <= k < |CategoryEntries(ts)| && CategoryEntries(ts)[k].0 == c) <==> c in CategoriesOf(ts)
  {
    var keys := FirstOccurrences(CategoriesOf(ts));
    var es := CategoryEntries(ts);
    assert c in keys <==> c in CategoriesOf(ts);
    if c in keys {
      var q :| 0 <= q < |keys| && keys[q] == c;
      assert es[q].0 == c;
    }
  }
}
