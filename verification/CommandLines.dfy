/** What a whole command line leaves behind: every argument arrives, and which strings can be freed
    again (src/param.c, include/urt_setup.h). */
module CommandLines {
  import opened Common
  import opened ParamText
  import opened Params
  import opened Arguments

  // ---------------------------------------------------------------------------------------
  // Every argument arrives

  ghost predicate SameNames(ps: seq<Param>, qs: seq<Param>)
  {
    |ps| == |qs| && forall i :: 0 <= i < |ps| ==> qs[i].name == ps[i].name
  }

  lemma SameMatch(ps: seq<Param>, qs: seq<Param>, arg: string)
    requires SameNames(ps, qs)
    ensures MatchIndex(ps, arg, 0) == MatchIndex(qs, arg, 0)
  {
    var j, k := MatchIndex(ps, arg, 0), MatchIndex(qs, arg, 0);
    assert j < |ps| ==> Matches(qs[j], arg);
    assert k < |qs| ==> Matches(ps[k], arg);
  }

  /** Every argument after the program's name is for an integer parameter, and each for another. */
  ghost predicate IntCommandLine(ps: seq<Param>, argv: seq<string>)
  {
    && argv != [] && CStrings(argv)
    && (forall a :: 1 <= a < |argv| ==> ForInt(ps, argv[a]))
    && (forall a, b :: 1 <= a < b < |argv| ==> MatchIndex(ps, argv[a], 0) != MatchIndex(ps, argv[b], 0))
  }

  predicate ForInt(ps: seq<Param>, arg: string)
  {
    !IsHelp(arg) && MatchIndex(ps, arg, 0) < |ps| && !ps[MatchIndex(ps, arg, 0)].kind.Charp?
  }

  /** What a parameter and an argument for it give on their own. */
  function Alone(ps: seq<Param>, arg: string, h: Heap, willing: nat -> bool): Parse
    requires Declared(ps) && MatchIndex(ps, arg, 0) < |ps|
  {
    ResetKeeps(ps, MatchIndex(ps, arg, 0));
    Parsed(ResetAll(ps)[MatchIndex(ps, arg, 0)], arg, h, willing)
  }

  lemma ResetKeeps(ps: seq<Param>, k: nat)
    requires Declared(ps) && k < |ps|
    ensures WellFormed(ResetAll(ps)[k]) && Declared(ResetAll(ps)) && SameNames(ps, ResetAll(ps))
    ensures ResetAll(ps)[k].kind == ps[k].kind
  {
    ResetDeclared(ps, Heap(map[], 0));
  }

  ghost predicate NotNamed(ps: seq<Param>, argv: seq<string>, lo: nat, hi: nat, j: nat)
  {
    forall a :: lo <= a < hi && a < |argv| ==> MatchIndex(ps, argv[a], 0) != j
  }

  /** An argument changes no parameter but the one it is for; if that is as reset makes it, the argument
      does to it what it does on its own. */
  lemma ArrivesNext(ps: seq<Param>, qs: seq<Param>, h: Heap, arg: string, err: Errno, willing: nat -> bool)
    requires Declared(ps) && DistinctNames(ps) && ForInt(ps, arg) && SameNames(ps, qs) && Declared(qs)
    requires SameKinds(ps, qs)
    ensures var q, k := ArgParsed(qs, h, arg, err, willing), MatchIndex(ps, arg, 0);
            && q.heap == h && SameNames(ps, q.params) && SameKinds(ps, q.params) && Declared(q.params)
            && (forall j :: 0 <= j < |ps| && j != k ==> q.params[j] == qs[j])
            && (qs[k] == ResetAll(ps)[k] ==>
                  && q.params[k] == Alone(ps, arg, h, willing).param
                  && (q.err == NoError <==> err == NoError && Alone(ps, arg, h, willing).err == NoError))
  {
    var k := MatchIndex(ps, arg, 0);
    SameMatch(ps, qs, arg);
    GoesToOne(qs, h, arg, err, willing);
    ResetKeeps(ps, k);
    var m := IntParseLaw(qs[k], arg, h, willing);
  }

  ghost predicate SameKinds(ps: seq<Param>, qs: seq<Param>)
  {
    |ps| == |qs| && forall i :: 0 <= i < |ps| ==> qs[i].kind == ps[i].kind
  }

  /** The outcome after the first n arguments, the program's name included. */
  ghost predicate After(ps: seq<Param>, h: Heap, argv: seq<string>, willing: nat -> bool, n: nat, r: Outcome)
  {
    && Declared(ps) && n <= |argv| && CStrings(argv[..n])
    && r == CommandLineParsed(ps, h, argv[..n], willing)
    && !r.help && r.heap == h && SameNames(ps, r.params) && SameKinds(ps, r.params) && Declared(r.params)
  }

  lemma AfterFirst(ps: seq<Param>, h: Heap, argv: seq<string>, willing: nat -> bool) returns (r: Outcome)
    requires Declared(ps) && argv != [] && CStrings(argv)
    ensures After(ps, h, argv, willing, 1, r) && r.params == ResetAll(ps) && r.err == NoError
  {
    assert argv[..1] == [argv[0]];
    NoArguments(ps, h, argv[0], willing);
    r := CommandLineParsed(ps, h, [argv[0]], willing);
    ResetDeclared(ps, h);
  }

  lemma AfterNext(ps: seq<Param>, h: Heap, argv: seq<string>, willing: nat -> bool, n: nat, r: Outcome)
    returns (r': Outcome)
    requires DistinctNames(ps) && IntCommandLine(ps, argv) && 1 <= n < |argv|
    requires After(ps, h, argv, willing, n, r)
    ensures After(ps, h, argv, willing, n + 1, r') && ForInt(ps, argv[n])
    ensures var k := MatchIndex(ps, argv[n], 0);
            && (forall j :: 0 <= j < |ps| && j != k ==> r'.params[j] == r.params[j])
            && (r.params[k] == ResetAll(ps)[k] ==>
                  && r'.params[k] == Alone(ps, argv[n], h, willing).param
                  && (r'.err == NoError <==> r.err == NoError && Alone(ps, argv[n], h, willing).err == NoError))
  {
    var arg := argv[n];
    assert ForInt(ps, arg) && NoNul(arg);
    assert argv[..n + 1] == argv[..n] + [arg];
    OneMoreArgument(ps, h, argv[..n], arg, willing);
    ArrivesNext(ps, r.params, h, arg, r.err, willing);
    var q := ArgParsed(r.params, r.heap, arg, r.err, willing);
    r' := Outcome(false, q.err, q.params, q.heap);
  }

  /** A parameter that is not named from there on stays as it is. */
  lemma {:induction false} StaysAfter(ps: seq<Param>, h: Heap, argv: seq<string>, willing: nat -> bool,
                                      n: nat, r: Outcome, m: nat, j: nat) returns (r': Outcome)
    requires DistinctNames(ps) && IntCommandLine(ps, argv) && 1 <= n <= m <= |argv| && j < |ps|
    requires After(ps, h, argv, willing, n, r) && NotNamed(ps, argv, n, m, j)
    ensures After(ps, h, argv, willing, m, r') && r'.params[j] == r.params[j]
    decreases m - n
  {
    if n == m {
      r' := r;
    } else {
      var r1 := AfterNext(ps, h, argv, willing, n, r);
      r' := StaysAfter(ps, h, argv, willing, n + 1, r1, m, j);
    }
  }

  /** Of a command line whose arguments are for different integer parameters, every argument arrives:
      the parameter it names is as the argument makes it on its own. */
  lemma EveryArgumentArrives(ps: seq<Param>, h: Heap, argv: seq<string>, willing: nat -> bool, a: nat)
    requires Declared(ps) && DistinctNames(ps) && IntCommandLine(ps, argv) && 1 <= a < |argv|
    ensures ForInt(ps, argv[a])
    ensures var r, k := CommandLineParsed(ps, h, argv, willing), MatchIndex(ps, argv[a], 0);
            && !r.help && r.heap == h && |r.params| == |ps|
            && r.params[k] == Alone(ps, argv[a], h, willing).param
  {
    var r2 := StillReset(ps, h, argv, willing, a);
    var r3 := AfterNext(ps, h, argv, willing, a, r2);
    NamedOnce(ps, argv, a);
    var r4 := StaysAfter(ps, h, argv, willing, a + 1, r3, |argv|, MatchIndex(ps, argv[a], 0));
    WholeLine(ps, h, argv, willing, r4);
  }

  lemma WholeLine(ps: seq<Param>, h: Heap, argv: seq<string>, willing: nat -> bool, r: Outcome)
    requires Declared(ps) && CStrings(argv) && After(ps, h, argv, willing, |argv|, r)
    ensures r == CommandLineParsed(ps, h, argv, willing)
  {
    assert argv[..|argv|] == argv;
  }

  lemma NamedOnce(ps: seq<Param>, argv: seq<string>, a: nat)
    requires IntCommandLine(ps, argv) && 1 <= a < |argv|
    ensures MatchIndex(ps, argv[a], 0) < |ps| && ForInt(ps, argv[a])
    ensures NotNamed(ps, argv, 1, a, MatchIndex(ps, argv[a], 0))
    ensures NotNamed(ps, argv, a + 1, |argv|, MatchIndex(ps, argv[a], 0))
  {
    assert ForInt(ps, argv[a]);
  }

  /** Up to its own argument a parameter is as reset makes it. */
  lemma StillReset(ps: seq<Param>, h: Heap, argv: seq<string>, willing: nat -> bool, a: nat)
    returns (r: Outcome)
    requires Declared(ps) && DistinctNames(ps) && IntCommandLine(ps, argv) && 1 <= a < |argv|
    ensures After(ps, h, argv, willing, a, r) && MatchIndex(ps, argv[a], 0) < |ps|
    ensures r.params[MatchIndex(ps, argv[a], 0)] == ResetAll(ps)[MatchIndex(ps, argv[a], 0)]
  {
    NamedOnce(ps, argv, a);
    var r1 := AfterFirst(ps, h, argv, willing);
    r := StaysAfter(ps, h, argv, willing, 1, r1, a, MatchIndex(ps, argv[a], 0));
  }

  /** The others are as before but for the counters of arrays. */
  lemma OthersAsBefore(ps: seq<Param>, h: Heap, argv: seq<string>, willing: nat -> bool, j: nat)
    requires Declared(ps) && DistinctNames(ps) && IntCommandLine(ps, argv)
    requires j < |ps| && NotNamed(ps, argv, 1, |argv|, j)
    ensures var r := CommandLineParsed(ps, h, argv, willing);
            |r.params| == |ps| && r.params[j] == ResetAll(ps)[j]
  {
    var r1 := AfterFirst(ps, h, argv, willing);
    var r2 := StaysAfter(ps, h, argv, willing, 1, r1, |argv|, j);
    assert argv[..|argv|] == argv;
  }

  /** The arguments from the n-th on, and before the m-th, are all good on their own. */
  ghost predicate AllGood(ps: seq<Param>, argv: seq<string>, h: Heap, willing: nat -> bool, n: nat, m: nat)
    requires Declared(ps) && n <= m <= |argv|
    decreases m - n
  {
    n == m || (ForInt(ps, argv[n]) && Alone(ps, argv[n], h, willing).err == NoError
               && AllGood(ps, argv, h, willing, n + 1, m))
  }

  /** There is an error exactly if one of the arguments has one on its own. */
  lemma ErrorIff(ps: seq<Param>, h: Heap, argv: seq<string>, willing: nat -> bool)
    requires Declared(ps) && DistinctNames(ps) && IntCommandLine(ps, argv)
    ensures CommandLineParsed(ps, h, argv, willing).err == NoError
            <==> AllGood(ps, argv, h, willing, 1, |argv|)
  {
    var r1 := AfterFirst(ps, h, argv, willing);
    var r := ErrorFrom(ps, h, argv, willing, 1, r1);
    WholeLine(ps, h, argv, willing, r);
  }

  lemma {:induction false} ErrorFrom(ps: seq<Param>, h: Heap, argv: seq<string>, willing: nat -> bool,
                                     n: nat, r: Outcome) returns (r': Outcome)
    requires Declared(ps) && DistinctNames(ps) && IntCommandLine(ps, argv) && 1 <= n <= |argv|
    requires After(ps, h, argv, willing, n, r)
    ensures After(ps, h, argv, willing, |argv|, r')
    ensures r'.err == NoError <==> r.err == NoError && AllGood(ps, argv, h, willing, n, |argv|)
    decreases |argv| - n
  {
    if n == |argv| {
      r' := r;
    } else {
      var r1 := ErrorNext(ps, h, argv, willing, n, r);
      r' := ErrorFrom(ps, h, argv, willing, n + 1, r1);
    }
  }

  lemma ErrorNext(ps: seq<Param>, h: Heap, argv: seq<string>, willing: nat -> bool, n: nat, r0: Outcome)
    returns (r: Outcome)
    requires Declared(ps) && DistinctNames(ps) && IntCommandLine(ps, argv) && 1 <= n < |argv|
    requires After(ps, h, argv, willing, n, r0)
    ensures After(ps, h, argv, willing, n + 1, r) && ForInt(ps, argv[n])
    ensures r.err == NoError <==> r0.err == NoError && Alone(ps, argv[n], h, willing).err == NoError
  {
    var r2 := StillReset(ps, h, argv, willing, n);
    r := AfterNext(ps, h, argv, willing, n, r0);
  }

  /** From the command line to the variable: one printed list. */
  lemma PrintedListArrives(ps: seq<Param>, h: Heap, prog: string, k: nat, front: string, quoted: bool,
                           vs: seq<int>, willing: nat -> bool)
    requires Declared(ps) && DistinctNames(ps) && k < |ps| && !ps[k].kind.Charp?
    requires Dashlessly(front) == ps[k].name && vs != [] && AllInRange(ps[k].kind, vs)
    requires NoNul(prog) && NoNul(Argument(front, quoted, Joined(vs)))
    ensures var r := CommandLineParsed(ps, h, [prog, Argument(front, quoted, Joined(vs))], willing);
            && !r.help && r.heap == h && |r.params| == |ps|
            && (forall j :: 0 <= j < |ps| && j != k ==> r.params[j] == ResetAll(ps)[j])
            && r.params[k].cells == Stored(ps[k].cells, 0, vs)
            && (r.err == NoError && r.params[k].num == |vs| <==> |vs| <= |ps[k].cells|)
            && (r.err == E2BIG <==> ps[k].isArray && |vs| > ps[k].max)
  {
    var arg := Argument(front, quoted, Joined(vs));
    ResetKeeps(ps, k);
    RoundTrip(ResetAll(ps)[k], front, quoted, vs, h, willing);
    NotHelp(arg);
    MatchesOne(ps, k, arg);
    NoArguments(ps, h, prog, willing);
    OneMoreArgument(ps, h, [prog], arg, willing);
    assert [prog] + [arg] == [prog, arg];
    SameMatch(ps, ResetAll(ps), arg);
    GoesToOne(ResetAll(ps), h, arg, NoError, willing);
  }

  lemma NotHelp(arg: string)
    requires IndexOf(arg, '=') < |arg|
    ensures !IsHelp(arg)
  {}

  lemma MatchesOne(ps: seq<Param>, k: nat, arg: string)
    requires DistinctNames(ps) && k < |ps| && Matches(ps[k], arg)
    ensures MatchIndex(ps, arg, 0) == k
  {}
}
