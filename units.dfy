/** The SI unit registry and resolver: the prefix table, the base units
    watt and watt-hour, and the resolution of a unit symbol such as "kW"
    into a unit with its factor to the base unit. */
module Units {
  import opened Errors
  import opened Numbers
  import Text

  /** An SI unit: its factor converts a value in this unit to the base unit. */
  datatype Unit = Unit(name: string, quantity: string, symbol: string, factor: real)

  /** An entry of the prefix table: a symbol and its multiplier as a power of ten. */
  datatype Prefix = Prefix(symbol: string, exponent: int)

  /** The prefix table, in the order its entries are listed. */
  const SiPrefixes: seq<Prefix> :=
    [Prefix("Y", 24), Prefix("Z", 21), Prefix("E", 18), Prefix("P", 15), Prefix("T", 12),
     Prefix("G", 9), Prefix("M", 6), Prefix("k", 3), Prefix("h", 2), Prefix("da", 1),
     Prefix("d", -1), Prefix("c", -2), Prefix("m", -3), Prefix("\U{00B5}", -6), Prefix("u", -6),
     Prefix("n", -9), Prefix("p", -12), Prefix("f", -15), Prefix("a", -18), Prefix("z", -21),
     Prefix("y", -24)]

  const Watt := Unit("Watt", "Power", "W", 1.0)
  const WattHour := Unit("Watt-hour", "Energy", "Wh", 1.0)

  /** The registered base units, by symbol. */
  const BaseUnits: map<string, Unit> := map["W" := Watt, "Wh" := WattHour]

  /** The prefix table's symbols are distinct, like the keys of a dictionary. */
  lemma PrefixSymbolsDistinct()
    ensures forall i, j :: 0 <= i < j < |SiPrefixes| ==> SiPrefixes[i].symbol != SiPrefixes[j].symbol
  {
  }

  /** No prefix symbol is empty and none contains a 'W'. */
  lemma PrefixSymbolsShape()
    ensures forall i :: 0 <= i < |SiPrefixes| ==> |SiPrefixes[i].symbol| >= 1 && 'W' !in SiPrefixes[i].symbol
  {
  }

  /** Every prefix symbol is free of whitespace. */
  lemma PrefixSymbolsTokens()
    ensures forall i :: 0 <= i < |SiPrefixes| ==> Text.IsToken(SiPrefixes[i].symbol)
  {
  }

  /** The table holds the twenty SI prefixes from yocto (10^-24) to yotta
      (10^24), micro spelt both "\U{00B5}" and "u", deca spelt "da". */
  lemma PrefixExponents()
    ensures |SiPrefixes| == 21
    ensures forall i :: 0 <= i < |SiPrefixes| ==> -24 <= SiPrefixes[i].exponent <= 24 && SiPrefixes[i].exponent != 0
    ensures SiPrefixes[13] == Prefix("\U{00B5}", -6) && SiPrefixes[14] == Prefix("u", -6)
    ensures SiPrefixes[9] == Prefix("da", 1) && SiPrefixes[7] == Prefix("k", 3)
  {
  }

  /** The base table: each unit is registered under its own symbol, has
      factor 1, and every base symbol starts with 'W'. */
  lemma BaseTable()
    ensures forall b :: b in BaseUnits ==> BaseUnits[b].symbol == b && BaseUnits[b].factor == 1.0
    ensures forall b :: b in BaseUnits ==> |b| >= 1 && b[0] == 'W' && Text.IsToken(b)
  {
  }

  /** Two entries of the prefix table with the same symbol are the same entry. */
  lemma SameSymbolSameEntry(p: Prefix, q: Prefix)
    requires p in SiPrefixes && q in SiPrefixes && p.symbol == q.symbol
    ensures p == q
  {
    PrefixSymbolsDistinct();
    var i :| 0 <= i < |SiPrefixes| && SiPrefixes[i] == p;
    var j :| 0 <= j < |SiPrefixes| && SiPrefixes[j] == q;
  }

  // ---------------------------------------------------------------------
  // sorted(SI_PREFIXES, key=len, reverse=True)

  /** The entries of ps whose symbol has length n, in their original order. */
  function OfLength(ps: seq<Prefix>, n: nat): (r: seq<Prefix>)
    ensures AllOfLength(r, n)
  {
    if ps == [] then []
    else (if |ps[0].symbol| == n then [ps[0]] else []) + OfLength(ps[1..], n)
  }

  predicate AllOfLength(ps: seq<Prefix>, n: nat)
  {
    forall i :: 0 <= i < |ps| ==> |ps[i].symbol| == n
  }

  /** Every symbol in ps has length at most n. */
  predicate AtMostLength(ps: seq<Prefix>, n: nat)
  {
    forall i :: 0 <= i < |ps| ==> |ps[i].symbol| <= n
  }

  /** ps is ordered by symbol length, longest first. */
  predicate DescendingLength(ps: seq<Prefix>)
  {
    forall i, j :: 0 <= i < j < |ps| ==> |ps[i].symbol| >= |ps[j].symbol|
  }

  lemma DescendingConcat(a: seq<Prefix>, b: seq<Prefix>, n: nat)
    requires AllOfLength(a, n) && n > 0 && AtMostLength(b, n - 1) && DescendingLength(b)
    ensures AtMostLength(a + b, n) && DescendingLength(a + b)
  {
    assert forall i :: 0 <= i < |a| ==> (a + b)[i] == a[i];
    assert forall i :: |a| <= i < |a + b| ==> (a + b)[i] == b[i - |a|];
  }

  /** The entries of ps with symbols no longer than n: those of length n
      first, then those of length n - 1, and so on down to 0. */
  function LongestFirst(ps: seq<Prefix>, n: nat): (r: seq<Prefix>)
    ensures AtMostLength(r, n) && DescendingLength(r)
  {
    var here := OfLength(ps, n);
    if n == 0 then here
    else
      var rest := LongestFirst(ps, n - 1);
      DescendingConcat(here, rest, n);
      here + rest
  }

  /** The length of the longest symbol in ps. */
  function MaxLength(ps: seq<Prefix>): (n: nat)
    ensures forall x :: x in ps ==> |x.symbol| <= n
  {
    if ps == [] then 0
    else
      var m := MaxLength(ps[1..]);
      if |ps[0].symbol| > m then |ps[0].symbol| else m
  }

  lemma {:induction false} OfLengthCount(ps: seq<Prefix>, n: nat, x: Prefix)
    ensures multiset(OfLength(ps, n))[x] == if |x.symbol| == n then multiset(ps)[x] else 0
  {
    if ps != [] {
      assert ps == [ps[0]] + ps[1..];
      OfLengthCount(ps[1..], n, x);
    }
  }

  lemma {:induction false} LongestFirstCount(ps: seq<Prefix>, n: nat, x: Prefix)
    ensures multiset(LongestFirst(ps, n))[x] == if |x.symbol| <= n then multiset(ps)[x] else 0
  {
    OfLengthCount(ps, n, x);
    if n > 0 {
      LongestFirstCount(ps, n - 1, x);
    }
  }

  /** Python's sorted(ps, key=len, reverse=True) on the symbols: a
      permutation of ps, longest symbol first (and stable: see SortStable). */
  function SortedByLengthDesc(ps: seq<Prefix>): (r: seq<Prefix>)
    ensures multiset(r) == multiset(ps)
    ensures DescendingLength(r)
  {
    var r := LongestFirst(ps, MaxLength(ps));
    assert multiset(r) == multiset(ps) by {
      forall x ensures multiset(r)[x] == multiset(ps)[x] {
        LongestFirstCount(ps, MaxLength(ps), x);
        if |x.symbol| > MaxLength(ps) {
          assert x !in ps;
        }
      }
    }
    r
  }

  lemma {:induction false} OfLengthAppend(a: seq<Prefix>, b: seq<Prefix>, n: nat)
    ensures OfLength(a + b, n) == OfLength(a, n) + OfLength(b, n)
    decreases |a|
  {
    if a == [] {
      assert a + b == b;
    } else {
      assert (a + b)[1..] == a[1..] + b;
      OfLengthAppend(a[1..], b, n);
    }
  }

  lemma {:induction false} OfLengthTwice(ps: seq<Prefix>, k: nat, n: nat)
    ensures OfLength(OfLength(ps, k), n) == if k == n then OfLength(ps, n) else []
    decreases |ps|
  {
    if ps != [] {
      var head := if |ps[0].symbol| == k then [ps[0]] else [];
      OfLengthAppend(head, OfLength(ps[1..], k), n);
      OfLengthTwice(ps[1..], k, n);
    }
  }

  lemma {:induction false} OfLengthLongestFirst(ps: seq<Prefix>, m: nat, n: nat)
    ensures OfLength(LongestFirst(ps, m), n) == if n <= m then OfLength(ps, n) else []
    decreases m
  {
    OfLengthTwice(ps, m, n);
    if m > 0 {
      var here, rest := OfLength(ps, m), LongestFirst(ps, m - 1);
      assert LongestFirst(ps, m) == here + rest;
      OfLengthAppend(here, rest, n);
      OfLengthLongestFirst(ps, m - 1, n);
      if n == m {
        assert OfLength(rest, n) == [];
        assert OfLength(here, n) + [] == OfLength(ps, n);
      } else {
        assert OfLength(here, n) == [];
        assert [] + OfLength(rest, n) == OfLength(rest, n);
      }
    }
  }

  /** The sort is stable: the entries of each symbol length keep their order. */
  lemma SortStable(ps: seq<Prefix>, n: nat)
    ensures OfLength(SortedByLengthDesc(ps), n) == OfLength(ps, n)
  {
    var m := MaxLength(ps);
    OfLengthLongestFirst(ps, m, n);
    if n > m {
      assert forall i :: 0 <= i < |ps| ==> ps[i] in ps;
      OfLengthNone(ps, n);
    }
  }

  lemma {:induction false} OfLengthAll(ps: seq<Prefix>, n: nat)
    requires AllOfLength(ps, n)
    ensures OfLength(ps, n) == ps
  {
    if ps != [] {
      OfLengthAll(ps[1..], n);
      assert ps == [ps[0]] + ps[1..];
    }
  }

  lemma {:induction false} OfLengthNone(ps: seq<Prefix>, n: nat)
    requires forall i :: 0 <= i < |ps| ==> |ps[i].symbol| != n
    ensures OfLength(ps, n) == []
  {
    if ps != [] {
      OfLengthNone(ps[1..], n);
    }
  }

  lemma {:induction false} MaxLengthAtMost(ps: seq<Prefix>, n: nat)
    requires forall i :: 0 <= i < |ps| ==> |ps[i].symbol| <= n
    ensures MaxLength(ps) <= n
  {
    if ps != [] {
      MaxLengthAtMost(ps[1..], n);
    }
  }

  lemma {:induction false} MaxLengthIs(ps: seq<Prefix>, n: nat, k: nat)
    requires forall i :: 0 <= i < |ps| ==> |ps[i].symbol| <= n
    requires k < |ps| && |ps[k].symbol| == n
    ensures MaxLength(ps) == n
  {
    if k > 0 {
      MaxLengthIs(ps[1..], n, k - 1);
    } else if |ps| > 1 {
      MaxLengthAtMost(ps[1..], n);
    }
  }

  lemma OfLengthAround(ps: seq<Prefix>, k: nat, n: nat)
    requires k < |ps|
    ensures OfLength(ps, n) == OfLength(ps[..k], n) + OfLength([ps[k]], n) + OfLength(ps[k + 1..], n)
  {
    assert ps == ps[..k] + [ps[k]] + ps[k + 1..];
    OfLengthAppend(ps[..k] + [ps[k]], ps[k + 1..], n);
    OfLengthAppend(ps[..k], [ps[k]], n);
  }

  /** ps has one two-character symbol, at k, and otherwise one-character symbols. */
  predicate OneLongAt(ps: seq<Prefix>, k: nat)
  {
    k < |ps| && |ps[k].symbol| == 2 && forall i :: 0 <= i < |ps| && i != k ==> |ps[i].symbol| == 1
  }

  lemma ShortAround(ps: seq<Prefix>, k: nat)
    requires OneLongAt(ps, k)
    ensures AllOfLength(ps[..k], 1) && AllOfLength(ps[k + 1..], 1)
  {
    var b := ps[k + 1..];
    forall i | 0 <= i < |b| ensures |b[i].symbol| == 1 {
      assert b[i] == ps[k + 1 + i];
    }
  }

  lemma LongBucket(ps: seq<Prefix>, k: nat)
    requires OneLongAt(ps, k)
    ensures OfLength(ps, 2) == [ps[k]]
  {
    ShortAround(ps, k);
    OfLengthAround(ps, k, 2);
    OfLengthNone(ps[..k], 2);
    OfLengthNone(ps[k + 1..], 2);
    OfLengthAll([ps[k]], 2);
  }

  lemma ShortBucket(ps: seq<Prefix>, k: nat)
    requires OneLongAt(ps, k)
    ensures OfLength(ps, 1) == ps[..k] + ps[k + 1..]
  {
    var a, b := ps[..k], ps[k + 1..];
    ShortAround(ps, k);
    OfLengthAround(ps, k, 1);
    OfLengthAll(a, 1);
    OfLengthAll(b, 1);
    OfLengthNone([ps[k]], 1);
    JoinAround(OfLength(ps, 1), OfLength(a, 1), OfLength([ps[k]], 1), OfLength(b, 1));
  }

  lemma JoinAround(all: seq<Prefix>, before: seq<Prefix>, middle: seq<Prefix>, after: seq<Prefix>)
    requires all == before + middle + after && middle == []
    ensures all == before + after
  {
    assert before + [] == before;
  }

  /** With one two-character symbol among one-character ones, the sort moves
      that entry to the front and keeps the others in order. */
  lemma SortedOneLong(ps: seq<Prefix>, k: nat)
    requires OneLongAt(ps, k)
    ensures SortedByLengthDesc(ps) == [ps[k]] + ps[..k] + ps[k + 1..]
  {
    SortedTwoLong(ps, k);
    BucketsOneLong(ps, k);
  }

  lemma SortedTwoLong(ps: seq<Prefix>, k: nat)
    requires OneLongAt(ps, k)
    ensures SortedByLengthDesc(ps) == LongestFirst(ps, 2)
  {
    MaxLengthIs(ps, 2, k);
  }

  lemma BucketsOneLong(ps: seq<Prefix>, k: nat)
    requires OneLongAt(ps, k)
    ensures LongestFirst(ps, 2) == [ps[k]] + ps[..k] + ps[k + 1..]
  {
    LongestFirstTwo(ps);
    LongBucket(ps, k);
    ShortBucket(ps, k);
    OfLengthNone(ps, 0);
    JoinBuckets(LongestFirst(ps, 2), OfLength(ps, 2), OfLength(ps, 1), OfLength(ps, 0), ps[k], ps[..k], ps[k + 1..]);
  }

  lemma JoinBuckets(all: seq<Prefix>, long: seq<Prefix>, short: seq<Prefix>, empty: seq<Prefix>,
                    x: Prefix, before: seq<Prefix>, after: seq<Prefix>)
    requires all == long + short + empty
    requires long == [x] && short == before + after && empty == []
    ensures all == [x] + before + after
  {
    assert long + short + empty == [x] + (before + after) + [];
  }

  lemma LongestFirstTwo(ps: seq<Prefix>)
    ensures LongestFirst(ps, 2) == OfLength(ps, 2) + OfLength(ps, 1) + OfLength(ps, 0)
  {
    assert LongestFirst(ps, 1) == OfLength(ps, 1) + OfLength(ps, 0);
  }

  /** The order in which the resolver tries the prefixes: "da" first, then the
      one-character prefixes in table order. */
  const PrefixOrder: seq<Prefix> :=
    [Prefix("da", 1),
     Prefix("Y", 24), Prefix("Z", 21), Prefix("E", 18), Prefix("P", 15), Prefix("T", 12),
     Prefix("G", 9), Prefix("M", 6), Prefix("k", 3), Prefix("h", 2),
     Prefix("d", -1), Prefix("c", -2), Prefix("m", -3), Prefix("\U{00B5}", -6), Prefix("u", -6),
     Prefix("n", -9), Prefix("p", -12), Prefix("f", -15), Prefix("a", -18), Prefix("z", -21),
     Prefix("y", -24)]

  /** PrefixOrder is what sorted(SI_PREFIXES, key=len, reverse=True) yields. */
  lemma PrefixOrderSorted()
    ensures PrefixOrder == SortedByLengthDesc(SiPrefixes)
  {
    DecaFirst();
    SortedDecaFirst();
  }

  lemma DecaFirst()
    ensures PrefixOrder == [SiPrefixes[9]] + SiPrefixes[..9] + SiPrefixes[10..]
  {
    var order := PrefixOrder;
    assert order[1..10] == SiPrefixes[..9];
    assert order[10..] == SiPrefixes[10..];
    assert order == [order[0]] + order[1..10] + order[10..];
  }

  lemma SortedDecaFirst()
    ensures SortedByLengthDesc(SiPrefixes) == [SiPrefixes[9]] + SiPrefixes[..9] + SiPrefixes[10..]
  {
    DecaOnlyLong();
    SortedOneLong(SiPrefixes, 9);
  }

  /** Moving one entry to the front keeps the same members. */
  lemma FrontMembers(ps: seq<Prefix>, k: nat, p: Prefix)
    requires k < |ps|
    ensures p in [ps[k]] + ps[..k] + ps[k + 1..] <==> p in ps
  {
    assert ps == ps[..k] + [ps[k]] + ps[k + 1..];
  }

  /** "da" is the only prefix symbol longer than one character. */
  lemma DecaOnlyLong()
    ensures OneLongAt(SiPrefixes, 9)
  {
  }

  // ---------------------------------------------------------------------
  // SIUnit.parse

  /** The test the resolver makes for prefix p: p starts sym and what is left
      is a base-unit symbol. */
  predicate Matches(sym: string, p: Prefix)
    ensures Matches(sym, p) ==> |p.symbol| < |sym|
  {
    |p.symbol| <= |sym| && sym[..|p.symbol|] == p.symbol && sym[|p.symbol|..] in BaseUnits
  }

  /** The unit built for prefix p in front of base unit u. */
  function Derive(p: Prefix, u: Unit): (d: Unit)
    ensures |d.symbol| == |p.symbol| + |u.symbol|
    ensures d.symbol[..|p.symbol|] == p.symbol && d.symbol[|p.symbol|..] == u.symbol
    ensures u.factor > 0.0 ==> d.factor > 0.0
  {
    Unit(p.symbol + u.name, u.quantity, p.symbol + u.symbol, u.factor * Pow10(p.exponent))
  }

  /** The unit that prefix p yields when it matches sym. */
  function DeriveFor(sym: string, p: Prefix): (u: Unit)
    requires Matches(sym, p)
    ensures u.symbol == sym && u.factor > 0.0
  {
    var b := sym[|p.symbol|..];
    BaseTable();
    assert sym == p.symbol + b;
    Derive(p, BaseUnits[b])
  }

  /** The prefix loop: the first prefix of ps that matches wins; when none does,
      the symbol is unknown. */
  function SearchPrefixes(sym: string, ps: seq<Prefix>): (r: Result<Unit>)
    ensures r.Err? <==> forall i :: 0 <= i < |ps| ==> !Matches(sym, ps[i])
    ensures r.Err? ==> r.error == UnknownUnit(sym)
    ensures r.Ok? ==>
      exists i :: 0 <= i < |ps| && Matches(sym, ps[i]) && r.value == DeriveFor(sym, ps[i])
        && (forall j :: 0 <= j < i ==> !Matches(sym, ps[j]))
    ensures r.Ok? ==> r.value.symbol == sym && r.value.factor > 0.0
  {
    if ps == [] then Err(UnknownUnit(sym))
    else if Matches(sym, ps[0]) then Ok(DeriveFor(sym, ps[0]))
    else
      var r := SearchPrefixes(sym, ps[1..]);
      assert forall i :: 1 <= i < |ps| ==> ps[i] == ps[1..][i - 1];
      r
  }

  /** SIUnit.parse: a base symbol gives its registered unit; otherwise the
      prefixes are tried longest first. */
  function Resolve(sym: string): (r: Result<Unit>)
    ensures r.Err? ==> r == Err(UnknownUnit(sym))
    ensures r.Ok? ==> r.value.symbol == sym && r.value.factor > 0.0
  {
    BaseTable();
    if sym in BaseUnits then Ok(BaseUnits[sym])
    else SearchPrefixes(sym, PrefixOrder)
  }

  /** No symbol is matched by two different prefixes of the table. */
  lemma MatchUnique(sym: string, p: Prefix, q: Prefix)
    requires p in SiPrefixes && q in SiPrefixes
    requires Matches(sym, p) && Matches(sym, q)
    ensures p == q
  {
    PrefixShape(p);
    PrefixShape(q);
    MatchSameSymbol(sym, p, q);
    SameSymbolSameEntry(p, q);
  }

  /** An entry of the prefix table: a non-empty token without a 'W'. */
  lemma PrefixShape(p: Prefix)
    requires p in SiPrefixes
    ensures |p.symbol| >= 1 && 'W' !in p.symbol && Text.IsToken(p.symbol)
  {
    PrefixSymbolsShape();
    PrefixSymbolsTokens();
    var i :| 0 <= i < |SiPrefixes| && SiPrefixes[i] == p;
  }

  /** Two 'W'-free prefixes that both match a symbol have the same symbol:
      the base symbol after either one starts with the first 'W'. */
  lemma MatchSameSymbol(sym: string, p: Prefix, q: Prefix)
    requires 'W' !in p.symbol && 'W' !in q.symbol
    requires Matches(sym, p) && Matches(sym, q)
    ensures p.symbol == q.symbol
  {
    BaseTable();
    var m, n := |p.symbol|, |q.symbol|;
    assert sym[m] == sym[m..][0] == 'W';
    assert sym[n] == sym[n..][0] == 'W';
  }

  /** Every entry of the table is tried, and nothing else. */
  lemma PrefixOrderCoversTable(p: Prefix)
    ensures p in PrefixOrder <==> p in SiPrefixes
  {
    DecaFirst();
    FrontMembers(SiPrefixes, 9, p);
  }

  /** The order in which prefixes are tried never changes the outcome: any
      two orderings of the same table entries resolve every symbol alike. */
  lemma SearchOrderIrrelevant(sym: string, ps: seq<Prefix>, qs: seq<Prefix>)
    requires forall p :: p in ps ==> p in SiPrefixes
    requires forall p :: p in ps <==> p in qs
    ensures SearchPrefixes(sym, ps) == SearchPrefixes(sym, qs)
  {
    var r, s := SearchPrefixes(sym, ps), SearchPrefixes(sym, qs);
    if r.Ok? {
      var i :| 0 <= i < |ps| && Matches(sym, ps[i]) && r.value == DeriveFor(sym, ps[i]);
      assert ps[i] in qs;
      var j :| 0 <= j < |qs| && Matches(sym, qs[j]) && s.value == DeriveFor(sym, qs[j]);
      assert qs[j] in ps;
      MatchUnique(sym, ps[i], qs[j]);
    } else if s.Ok? {
      var j :| 0 <= j < |qs| && Matches(sym, qs[j]);
      assert qs[j] in ps;
    }
  }

  /** A base symbol resolves to its registered unit, factor 1. */
  lemma ResolveBase(b: string)
    requires b in BaseUnits
    ensures Resolve(b) == Ok(BaseUnits[b])
    ensures Resolve(b).value.symbol == b && Resolve(b).value.factor == 1.0
  {
    BaseTable();
  }

  /** A prefix in front of a base symbol resolves to the derived unit: the
      prefix is prepended to the name and the symbol, the quantity is kept,
      and the factor is the prefix multiplier times the base factor. */
  lemma ResolvePrefixed(p: Prefix, b: string)
    requires p in SiPrefixes && b in BaseUnits
    ensures Resolve(p.symbol + b) == Ok(Derive(p, BaseUnits[b]))
    ensures Resolve(p.symbol + b).value.name == p.symbol + BaseUnits[b].name
    ensures Resolve(p.symbol + b).value.symbol == p.symbol + b
    ensures Resolve(p.symbol + b).value.quantity == BaseUnits[b].quantity
    ensures Resolve(p.symbol + b).value.factor == Pow10(p.exponent)
  {
    var sym := p.symbol + b;
    PrefixedSymbol(p, b);
    PrefixOrderCoversTable(p);
    forall q | q in PrefixOrder && Matches(sym, q) ensures q == p {
      PrefixOrderCoversTable(q);
      MatchUnique(sym, p, q);
    }
    SearchFindsOnly(sym, PrefixOrder, p);
    BaseTable();
  }

  /** A table prefix glued to a base symbol is no base symbol itself, and the
      prefix matches it with that base symbol as the remainder. */
  lemma PrefixedSymbol(p: Prefix, b: string)
    requires p in SiPrefixes && b in BaseUnits
    ensures p.symbol + b !in BaseUnits
    ensures Matches(p.symbol + b, p) && DeriveFor(p.symbol + b, p) == Derive(p, BaseUnits[b])
  {
    var sym := p.symbol + b;
    PrefixShape(p);
    BaseTable();
    assert sym[0] == p.symbol[0];
    assert sym[..|p.symbol|] == p.symbol && sym[|p.symbol|..] == b;
  }

  /** When exactly one entry of ps matches, the search finds that entry,
      wherever it sits in ps. */
  lemma SearchFindsOnly(sym: string, ps: seq<Prefix>, p: Prefix)
    requires p in ps && Matches(sym, p)
    requires forall q :: q in ps && Matches(sym, q) ==> q == p
    ensures SearchPrefixes(sym, ps) == Ok(DeriveFor(sym, p))
  {
    var r := SearchPrefixes(sym, ps);
    var i :| 0 <= i < |ps| && Matches(sym, ps[i]) && r.value == DeriveFor(sym, ps[i]);
    assert ps[i] in ps;
  }

  /** Resolution succeeds exactly on base symbols and on a table prefix
      followed by a base symbol, and then yields the registered or the derived
      unit; otherwise it fails naming the symbol asked for. */
  lemma ResolveExactly(sym: string, u: Unit)
    ensures Resolve(sym) == Ok(u) <==>
      || (sym in BaseUnits && u == BaseUnits[sym])
      || (exists p, b :: p in SiPrefixes && b in BaseUnits && sym == p.symbol + b && u == Derive(p, BaseUnits[b]))
    ensures Resolve(sym).Err? ==> Resolve(sym).error == UnknownUnit(sym)
  {
    if Resolve(sym) == Ok(u) {
      ResolveSound(sym, u);
    }
    if || (sym in BaseUnits && u == BaseUnits[sym])
       || (exists p, b :: p in SiPrefixes && b in BaseUnits && sym == p.symbol + b && u == Derive(p, BaseUnits[b])) {
      ResolveComplete(sym, u);
    }
  }

  lemma ResolveSound(sym: string, u: Unit)
    requires Resolve(sym) == Ok(u)
    ensures
      || (sym in BaseUnits && u == BaseUnits[sym])
      || (exists p, b :: p in SiPrefixes && b in BaseUnits && sym == p.symbol + b && u == Derive(p, BaseUnits[b]))
  {
    if sym !in BaseUnits {
      ResolvedSplits(sym);
    }
  }

  lemma ResolveComplete(sym: string, u: Unit)
    requires
      || (sym in BaseUnits && u == BaseUnits[sym])
      || (exists p, b :: p in SiPrefixes && b in BaseUnits && sym == p.symbol + b && u == Derive(p, BaseUnits[b]))
    ensures Resolve(sym) == Ok(u)
  {
    if !(sym in BaseUnits && u == BaseUnits[sym]) {
      var p, b :| p in SiPrefixes && b in BaseUnits && sym == p.symbol + b && u == Derive(p, BaseUnits[b]);
      ResolvePrefixed(p, b);
    }
  }

  /** A resolved symbol that is not a base symbol is a table prefix followed
      by a base symbol, and resolves to the unit derived from them. */
  lemma ResolvedSplits(sym: string)
    requires sym !in BaseUnits && Resolve(sym).Ok?
    ensures exists p, b :: p in SiPrefixes && b in BaseUnits && sym == p.symbol + b && Resolve(sym).value == Derive(p, BaseUnits[b])
  {
    forall q | q in PrefixOrder ensures q in SiPrefixes {
      PrefixOrderCoversTable(q);
    }
    SearchSplits(sym, PrefixOrder);
  }

  /** What a search over table entries finds is a table prefix followed by a
      base symbol, with the unit derived from them. */
  lemma SearchSplits(sym: string, ps: seq<Prefix>)
    requires SearchPrefixes(sym, ps).Ok? && forall q :: q in ps ==> q in SiPrefixes
    ensures exists p, b :: p in SiPrefixes && b in BaseUnits && sym == p.symbol + b && SearchPrefixes(sym, ps).value == Derive(p, BaseUnits[b])
  {
    var i :| 0 <= i < |ps| && Matches(sym, ps[i]) && SearchPrefixes(sym, ps).value == DeriveFor(sym, ps[i]);
    var p, b := ps[i], sym[|ps[i].symbol|..];
    assert p in ps;
    assert sym == p.symbol + b;
  }

  /** Resolving the symbol of a resolved unit gives that same unit back. */
  lemma ResolveIdempotent(sym: string)
    requires Resolve(sym).Ok?
    ensures Resolve(Resolve(sym).value.symbol) == Resolve(sym)
  {
    var u := Resolve(sym).value;
    BaseTable();
    ResolveExactly(sym, u);
    if sym !in BaseUnits {
      var p, b :| p in SiPrefixes && b in BaseUnits && sym == p.symbol + b && u == Derive(p, BaseUnits[b]);
      ResolvePrefixed(p, b);
    }
  }

  /** Every resolvable symbol ends in a base symbol, so it contains a 'W'. */
  lemma ResolvedContainsW(sym: string)
    requires Resolve(sym).Ok?
    ensures 'W' in sym
  {
    BaseTable();
    ResolveExactly(sym, Resolve(sym).value);
    if sym in BaseUnits {
      assert sym[0] == 'W';
    } else {
      var p, b :| p in SiPrefixes && b in BaseUnits && sym == p.symbol + b && Resolve(sym).value == Derive(p, BaseUnits[b]);
      assert sym[|p.symbol|] == b[0];
    }
  }

  /** A resolvable symbol holds no whitespace, so it is one token of a
      "value unit" text. */
  lemma ResolvedIsToken(sym: string)
    requires Resolve(sym).Ok?
    ensures Text.IsToken(sym)
  {
    BaseTable();
    ResolveExactly(sym, Resolve(sym).value);
    if sym !in BaseUnits {
      var p, b :| p in SiPrefixes && b in BaseUnits && sym == p.symbol + b && Resolve(sym).value == Derive(p, BaseUnits[b]);
      PrefixShape(p);
      Text.TokenConcat(p.symbol, b);
    }
  }

  /** A prefix on its own is no unit: the prefix would leave an empty
      remainder, and the empty string is no base symbol. */
  lemma BarePrefixUnknown(p: Prefix)
    requires p in SiPrefixes
    ensures Resolve(p.symbol) == Err(UnknownUnit(p.symbol))
  {
    PrefixSymbolsShape();
    UnknownWithoutW(p.symbol);
  }

  /** SIUnit.parse("W") is the registered watt. */
  lemma ResolveWatt()
    ensures Resolve("W") == Ok(Unit("Watt", "Power", "W", 1.0))
  {
  }

  /** SIUnit.parse("Wh") is the registered watt-hour. */
  lemma ResolveWattHour()
    ensures Resolve("Wh") == Ok(Unit("Watt-hour", "Energy", "Wh", 1.0))
  {
  }

  /** SIUnit.parse("kW") is "kWatt" with factor 1000. */
  lemma ResolveKilowatt()
    ensures Resolve("kW") == Ok(Unit("kWatt", "Power", "kW", 1000.0))
  {
    PrefixExponents();
    assert Pow10(3) == 1000.0;
    ResolveAt(7, "W", "kW", Unit("kWatt", "Power", "kW", 1000.0));
  }

  /** SIUnit.parse("daW") goes through "da", factor 10, never through "d". */
  lemma ResolveDecawatt()
    ensures Resolve("daW") == Ok(Unit("daWatt", "Power", "daW", 10.0))
  {
    PrefixExponents();
    assert Pow10(1) == 10.0;
    ResolveAt(9, "W", "daW", Unit("daWatt", "Power", "daW", 10.0));
  }

  /** The k-th table prefix in front of base symbol b resolves to the derived unit. */
  lemma ResolveAt(k: nat, b: string, sym: string, u: Unit)
    requires k < |SiPrefixes| && b in BaseUnits
    requires sym == SiPrefixes[k].symbol + b && u == Derive(SiPrefixes[k], BaseUnits[b])
    ensures Resolve(sym) == Ok(u)
  {
    ResolvePrefixed(SiPrefixes[k], b);
  }

  /** SIUnit.parse("invalid") fails: the symbol has no 'W'. */
  lemma ResolveInvalid()
    ensures Resolve("invalid") == Err(UnknownUnit("invalid"))
  {
    assert 'W' !in "invalid";
    UnknownWithoutW("invalid");
  }

  /** A symbol without a 'W' names no unit, and the error names that symbol. */
  lemma UnknownWithoutW(sym: string)
    requires 'W' !in sym
    ensures Resolve(sym) == Err(UnknownUnit(sym))
  {
    if Resolve(sym).Ok? {
      ResolvedContainsW(sym);
    }
    ResolveExactly(sym, Watt);
  }

  // ---------------------------------------------------------------------
  // _get_unit_symbol

  lemma {:induction false} JoinOnLast(fs: seq<string>, sep: char)
    requires |fs| >= 2
    ensures Text.JoinOn(fs, sep) == Text.JoinOn(fs[..|fs| - 1], sep) + [sep] + fs[|fs| - 1]
    decreases |fs|
  {
    if |fs| > 2 {
      JoinOnLast(fs[1..], sep);
      assert fs[1..][..|fs| - 2] == fs[..|fs| - 1][1..];
    }
  }

  /** _get_unit_symbol: the text after the last single space of the stripped text. */
  function UnitSymbolOf(s: string): (r: string)
    ensures ' ' !in r
    ensures var t := Text.Strip(s);
      |r| <= |t| && t[|t| - |r|..] == r && (|r| == |t| || t[|t| - |r| - 1] == ' ')
  {
    var t := Text.Strip(s);
    var fs := Text.SplitOn(t, ' ');
    var r := fs[|fs| - 1];
    assert |fs| >= 2 ==> t[|t| - |r| - 1] == ' ' && t[|t| - |r|..] == r by {
      if |fs| >= 2 {
        JoinOnLast(fs, ' ');
        var front := Text.JoinOn(fs[..|fs| - 1], ' ');
        assert t == front + [' '] + r;
      }
    }
    r
  }

  /** On a "value unit" text with one space, _get_unit_symbol finds the unit. */
  lemma UnitSymbolOfPair(v: string, sym: string)
    requires Text.IsToken(v) && Text.IsToken(sym)
    ensures UnitSymbolOf(v + " " + sym) == sym
  {
    var s := v + " " + sym;
    assert s[0] == v[0] && s[|s| - 1] == sym[|sym| - 1];
    Text.StripUnchanged(s);
    var r := UnitSymbolOf(s);
    var n := |s| - |sym|;
    assert s[n - 1] == ' ';
    assert s[n..] == sym;
  }
}
