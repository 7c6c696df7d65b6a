/** Which strings of a command line can still be freed, and when none is lost (src/param.c). */
module Leaks {
  import opened Common
  import opened ParamText
  import opened Params
  import opened Arguments
  import opened CommandLines

  /** Every live string is one that `urt_free_args` would free. */
  ghost predicate AllHeld(ps: seq<Param>, h: Heap) { h.live.Keys == Held(ps) }

  ghost function HeldOf(p: Param): set<nat>
  {
    set b: nat | b < |p.cells| && b < p.num && p.kind.Charp? && p.cells[b].PtrCell? :: p.cells[b].p
  }

  ghost function HeldElsewhere(ps: seq<Param>, k: nat): set<nat>
  {
    set a: nat, b: nat | a < |ps| && a != k && b < |ps[a].cells| && b < ps[a].num
                         && ps[a].kind.Charp? && ps[a].cells[b].PtrCell? :: ps[a].cells[b].p
  }

  lemma HeldSplits(ps: seq<Param>, k: nat)
    requires k < |ps|
    ensures Held(ps) == HeldElsewhere(ps, k) + HeldOf(ps[k])
  {
    forall x | x in Held(ps) ensures x in HeldElsewhere(ps, k) + HeldOf(ps[k]) {
      var a: nat, b: nat :| a < |ps| && b < |ps[a].cells| && b < ps[a].num
                            && ps[a].kind.Charp? && ps[a].cells[b].PtrCell? && ps[a].cells[b].p == x;
      if a == k {
        assert ps[k].cells[b].p in HeldOf(ps[k]);
      } else {
        assert ps[a].cells[b].p in HeldElsewhere(ps, k);
      }
    }
  }

  lemma ElsewhereSame(ps: seq<Param>, k: nat, q: Param)
    requires k < |ps|
    ensures HeldElsewhere(ps[k := q], k) == HeldElsewhere(ps, k)
    ensures Held(ps[k := q]) == HeldElsewhere(ps, k) + HeldOf(q)
  {
    var qs := ps[k := q];
    HeldSplits(qs, k);
    forall x | x in HeldElsewhere(ps, k) ensures x in HeldElsewhere(qs, k) {
      var a: nat, b: nat :| a < |ps| && a != k && b < |ps[a].cells| && b < ps[a].num
                            && ps[a].kind.Charp? && ps[a].cells[b].PtrCell? && ps[a].cells[b].p == x;
      assert qs[a].cells[b].p == x;
    }
    forall x | x in HeldElsewhere(qs, k) ensures x in HeldElsewhere(ps, k) {
      var a: nat, b: nat :| a < |qs| && a != k && b < |qs[a].cells| && b < qs[a].num
                            && qs[a].kind.Charp? && qs[a].cells[b].PtrCell? && qs[a].cells[b].p == x;
      assert ps[a].cells[b].p == x;
    }
  }

  /** What parameter `k` holds, nobody else does, and it is live. */
  lemma HeldApart(ps: seq<Param>, k: nat, h: Heap, b: nat)
    requires CellsOwned(ps, h) && k < |ps| && b < |ps[k].cells| && ps[k].cells[b].PtrCell?
    ensures ps[k].cells[b].p in h.live && ps[k].cells[b].p < h.next
    ensures ps[k].cells[b].p !in HeldElsewhere(ps, k)
    ensures forall j :: 0 <= j < |ps[k].cells| && j != b && ps[k].cells[j].PtrCell? ==>
              ps[k].cells[j].p != ps[k].cells[b].p
  {
    var p := ps[k].cells[b].p;
    assert Stores(ps, k, b, p);
    forall a: nat, j: nat | a < |ps| && j < |ps[a].cells| && ps[a].cells[j].PtrCell? && (a != k || j != b)
      ensures ps[a].cells[j].p != p
    {
      assert Stores(ps, a, j, ps[a].cells[j].p);
    }
  }

  // ---------------------------------------------------------------------------------------
  // What the conversion loop allocates

  function Pointed(cells: seq<Cell>, lo: nat, hi: nat): set<nat>
  {
    set j: nat | lo <= j < hi && j < |cells| && cells[j].PtrCell? :: cells[j].p
  }

  /** It allocates exactly what the elements it has written point to. */
  ghost predicate WroteFresh(cells: seq<Cell>, index: nat, h: Heap, f: Filled)
  {
    && |f.cells| == |cells| && index <= f.index <= |cells| && f.heap.next >= h.next
    && (forall j :: index <= j < f.index ==> f.cells[j].PtrCell? && h.next <= f.cells[j].p < f.heap.next)
    && (forall j :: 0 <= j < |cells| && !(index <= j < f.index) ==> f.cells[j] == cells[j])
    && f.heap.live.Keys == h.live.Keys + Pointed(f.cells, index, f.index)
  }

  lemma {:induction false} FillWritesFresh(cells: seq<Cell>, texts: seq<string>, index: nat, h: Heap,
                                           convert: Converter)
    requires index <= |cells| && texts != [] && Allocates(convert) && YieldsPointers(convert)
    ensures WroteFresh(cells, index, h, Fill(cells, texts, index, h, convert))
    decreases |texts|
  {
    if index < |cells| {
      var c := convert(texts[0], h);
      assert AllocatesAt(c, h);
      if c.err == NoError {
        var cells' := cells[index := c.cell];
        if |texts| > 1 {
          FillWritesFresh(cells', texts[1..], index + 1, c.heap, convert);
          WroteOneMore(cells, index, h, c, Fill(cells', texts[1..], index + 1, c.heap, convert));
        } else {
          var f := Filled(NoError, cells', index + 1, c.heap);
          assert f.cells[index].p in Pointed(f.cells, index, f.index);
          assert Pointed(f.cells, index, f.index) == {h.next};
        }
      }
    }
  }

  lemma WroteOneMore(cells: seq<Cell>, index: nat, h: Heap, c: Conversion, f: Filled)
    requires index < |cells| && c.cell == PtrCell(h.next) && AllocatesAt(c, h)
    requires WroteFresh(cells[index := c.cell], index + 1, c.heap, f)
    ensures WroteFresh(cells, index, h, f)
  {
    assert f.cells[index] == cells[index := c.cell][index];
    forall x | x in Pointed(f.cells, index, f.index) ensures x in {h.next} + Pointed(f.cells, index + 1, f.index) {
      var j: nat :| index <= j < f.index && j < |f.cells| && f.cells[j].PtrCell? && f.cells[j].p == x;
    }
    assert Pointed(f.cells, index, f.index) == {h.next} + Pointed(f.cells, index + 1, f.index);
    forall j | 0 <= j < |cells| && !(index <= j < f.index) ensures f.cells[j] == cells[j] {
      assert f.cells[j] == cells[index := c.cell][j];
    }
  }

  // ---------------------------------------------------------------------------------------
  // One argument

  lemma StringsWriteFresh(p: Param, arg: string, h: Heap, willing: nat -> bool)
    requires WellFormed(p) && p.kind.Charp?
    ensures WroteFresh(p.cells, 0, h, FilledBy(p, arg, h, willing))
  {
    ConvertersAllocate(p.kind, p.isArray, willing);
    FillWritesFresh(p.cells, Visited(p.isArray, ValueOf(arg)), 0, h,
                    ConverterFor(p.kind, p.isArray, willing));
  }

  /** The conversion loop for an argument. */
  function FilledBy(p: Param, arg: string, h: Heap, willing: nat -> bool): Filled
    requires WellFormed(p)
  {
    Fill(p.cells, Visited(p.isArray, ValueOf(arg)), 0, h, ConverterFor(p.kind, p.isArray, willing))
  }

  /** While every string is held, parsing an argument for a string parameter loses none if and only if
      it succeeds and the parameter was not set before, or fails without having allocated anything. */
  lemma ParsedAllHeldIff(ps: seq<Param>, k: nat, arg: string, h: Heap, willing: nat -> bool)
    requires Owned(ps, h) && AllHeld(ps, h) && k < |ps|
    ensures var r := Parsed(ps[k], arg, h, willing);
            AllHeld(ps[k := r.param], r.heap)
            <==> !ps[k].kind.Charp? || (if r.err == NoError then ps[k].num == 0 else r.heap.live.Keys == h.live.Keys)
  {
    var p, r := ps[k], Parsed(ps[k], arg, h, willing);
    ElsewhereSame(ps, k, r.param);
    HeldSplits(ps, k);
    if p.kind.Charp? {
      StringsWriteFresh(p, arg, h, willing);
      StringIff(ps, k, h, FilledBy(p, arg, h, willing), r.param, r.err == NoError);
    } else {
      IntsAllocateNothing(p, arg, h, willing);
      assert HeldOf(p) == {} && HeldOf(r.param) == {};
    }
  }

  lemma StringIff(ps: seq<Param>, k: nat, h: Heap, f: Filled, q: Param, good: bool)
    requires Owned(ps, h) && k < |ps| && ps[k].kind.Charp? && WroteFresh(ps[k].cells, 0, h, f)
    requires h.live.Keys == HeldElsewhere(ps, k) + HeldOf(ps[k])
    requires q.kind.Charp? && q.cells == f.cells && q.num == if good then f.index else ps[k].num
    ensures f.heap.live.Keys == HeldElsewhere(ps, k) + HeldOf(q)
            <==> if good then ps[k].num == 0 else f.heap.live.Keys == h.live.Keys
  {
    if good {
      SetIff(ps, k, h, f, q);
    } else {
      FailIff(ps, k, h, f, q);
    }
  }

  lemma IntsAllocateNothing(p: Param, arg: string, h: Heap, willing: nat -> bool)
    requires WellFormed(p) && !p.kind.Charp?
    ensures Parsed(p, arg, h, willing).heap == h && !Parsed(p, arg, h, willing).param.kind.Charp?
  {
    var m := IntParseLaw(p, arg, h, willing);
  }

  /** After a success the parameter holds what was allocated; what it held before is lost. */
  lemma SetIff(ps: seq<Param>, k: nat, h: Heap, f: Filled, q: Param)
    requires Owned(ps, h) && k < |ps| && ps[k].kind.Charp? && WroteFresh(ps[k].cells, 0, h, f)
    requires h.live.Keys == HeldElsewhere(ps, k) + HeldOf(ps[k])
    requires q.kind.Charp? && q.cells == f.cells && q.num == f.index
    ensures f.heap.live.Keys == HeldElsewhere(ps, k) + HeldOf(q) <==> ps[k].num == 0
  {
    var p := ps[k];
    assert HeldOf(q) == Pointed(f.cells, 0, f.index);
    if p.num > 0 {
      assert StringsSet(p) && WellFormed(p);
      HeldApart(ps, k, h, 0);
      assert p.cells[0].p !in Pointed(f.cells, 0, f.index);
      assert p.cells[0].p in HeldOf(p);
    }
  }

  /** After a failure the counter is as before: whatever was allocated is lost, or replaces something
      that is. */
  lemma FailIff(ps: seq<Param>, k: nat, h: Heap, f: Filled, q: Param)
    requires Owned(ps, h) && k < |ps| && ps[k].kind.Charp? && WroteFresh(ps[k].cells, 0, h, f)
    requires h.live.Keys == HeldElsewhere(ps, k) + HeldOf(ps[k])
    requires q.kind.Charp? && q.cells == f.cells && q.num == ps[k].num
    ensures f.heap.live.Keys == HeldElsewhere(ps, k) + HeldOf(q) <==> f.heap.live.Keys == h.live.Keys
  {
    var p := ps[k];
    assert StringsSet(p) && WellFormed(p);
    if f.index == 0 {
      assert f.cells == p.cells;
      assert Pointed(f.cells, 0, 0) == {};
    } else {
      assert f.cells[0].p in Pointed(f.cells, 0, f.index);
      assert forall x :: x in HeldElsewhere(ps, k) ==> x in h.live;
      if p.num == 0 {
        assert HeldOf(q) == {};
      } else {
        HeldApart(ps, k, h, 0);
        forall b: nat | b < |q.cells| && b < q.num && q.cells[b].PtrCell? ensures q.cells[b].p != p.cells[0].p {
          if b >= f.index {
            assert q.cells[b] == p.cells[b];
          }
        }
        assert p.cells[0].p !in HeldOf(q);
      }
    }
  }

  // ---------------------------------------------------------------------------------------
  // A whole command line

  /** No parameter is named twice from the i-th argument on. */
  ghost predicate NoRepeats(ps: seq<Param>, argv: seq<string>, i: nat)
  {
    forall a, b :: i <= a < b < |argv| ==> MatchIndex(ps, argv[a], 0) != MatchIndex(ps, argv[b], 0)
  }

  /** The string parameters that are named from there on are not set yet. */
  ghost predicate NotSet(ps: seq<Param>, argv: seq<string>, i: nat)
  {
    forall a :: i <= a < |argv| ==> Untouched(ps, MatchIndex(ps, argv[a], 0))
  }

  predicate Untouched(ps: seq<Param>, k: nat) { k < |ps| && ps[k].kind.Charp? ==> ps[k].num == 0 }

  /** An error is not forgotten. */
  lemma {:induction false} ErrorStays(ps: seq<Param>, h: Heap, argv: seq<string>, i: nat, err: Errno,
                                      willing: nat -> bool)
    requires Declared(ps) && DistinctNames(ps) && CStrings(argv) && i <= |argv| && err != NoError
    ensures ParseFrom(ps, h, argv, i, err, willing).err != NoError
    decreases |argv| - i
  {
    if i < |argv| && !IsHelp(argv[i]) {
      var q := ArgParsed(ps, h, argv[i], err, willing);
      ArgKeeps(ps, h, argv[i], err, willing);
      ErrorStays(q.params, q.heap, argv, i + 1, q.err, willing);
    }
  }

  lemma ArgKeeps(ps: seq<Param>, h: Heap, arg: string, err: Errno, willing: nat -> bool)
    requires Declared(ps) && DistinctNames(ps)
    ensures var q := ArgParsed(ps, h, arg, err, willing);
            SameNames(ps, q.params) && DistinctNames(q.params) && (err != NoError ==> q.err != NoError)
  {
    GoesToOne(ps, h, arg, err, willing);
    var k := MatchIndex(ps, arg, 0);
    if k < |ps| {
      ParsedKeeps(ps[k], arg, h, willing);
    }
  }

  lemma ParsedKeeps(p: Param, arg: string, h: Heap, willing: nat -> bool)
    requires WellFormed(p)
    ensures Parsed(p, arg, h, willing).param.name == p.name && Parsed(p, arg, h, willing).param.kind == p.kind
  {}

  /** An argument without error, for a parameter that is not set, loses nothing. */
  lemma ArgLosesNothing(ps: seq<Param>, h: Heap, arg: string, willing: nat -> bool)
    requires Owned(ps, h) && AllHeld(ps, h) && DistinctNames(ps)
    requires Untouched(ps, MatchIndex(ps, arg, 0))
    requires ArgParsed(ps, h, arg, NoError, willing).err == NoError
    ensures var q := ArgParsed(ps, h, arg, NoError, willing);
            && AllHeld(q.params, q.heap) && |q.params| == |ps|
            && forall j :: 0 <= j < |ps| && j != MatchIndex(ps, arg, 0) ==> q.params[j] == ps[j]
  {
    GoesToOne(ps, h, arg, NoError, willing);
    ParsedAllHeldIff(ps, MatchIndex(ps, arg, 0), arg, h, willing);
  }

  lemma {:induction false} ParseLosesNothing(ps: seq<Param>, h: Heap, argv: seq<string>, i: nat,
                                             willing: nat -> bool)
    requires Owned(ps, h) && AllHeld(ps, h) && DistinctNames(ps) && CStrings(argv) && i <= |argv|
    requires NoRepeats(ps, argv, i) && NotSet(ps, argv, i)
    requires ParseFrom(ps, h, argv, i, NoError, willing).err == NoError
    ensures var r := ParseFrom(ps, h, argv, i, NoError, willing); AllHeld(r.params, r.heap)
    decreases |argv| - i
  {
    if i < |argv| && !IsHelp(argv[i]) {
      var q := ArgParsed(ps, h, argv[i], NoError, willing);
      ArgKeeps(ps, h, argv[i], NoError, willing);
      if q.err != NoError {
        ErrorStays(q.params, q.heap, argv, i + 1, q.err, willing);
      } else {
        assert Untouched(ps, MatchIndex(ps, argv[i], 0));
        ArgLosesNothing(ps, h, argv[i], willing);
        SpreadOwned(ps, h, argv[i], 0, NoError, false, willing);
        StillNotSet(ps, q.params, argv, i);
        ParseLosesNothing(q.params, q.heap, argv, i + 1, willing);
      }
    }
  }

  lemma StillNotSet(ps: seq<Param>, qs: seq<Param>, argv: seq<string>, i: nat)
    requires SameNames(ps, qs) && i < |argv| && NoRepeats(ps, argv, i) && NotSet(ps, argv, i)
    requires forall j :: 0 <= j < |ps| && j != MatchIndex(ps, argv[i], 0) ==> qs[j] == ps[j]
    ensures NoRepeats(qs, argv, i + 1) && NotSet(qs, argv, i + 1)
  {
    forall a | 0 <= a < |argv| ensures MatchIndex(qs, argv[a], 0) == MatchIndex(ps, argv[a], 0) {
      SameMatch(ps, qs, argv[a]);
    }
    forall a | i + 1 <= a < |argv| ensures Untouched(qs, MatchIndex(qs, argv[a], 0)) {
      assert Untouched(ps, MatchIndex(ps, argv[a], 0));
      assert MatchIndex(ps, argv[i], 0) != MatchIndex(ps, argv[a], 0);
    }
  }

  /** Parameters as a program declares them: nothing is set. */
  ghost predicate Fresh(ps: seq<Param>)
  {
    forall i :: 0 <= i < |ps| ==>
      ps[i].num == 0 && forall j :: 0 <= j < |ps[i].cells| ==> !ps[i].cells[j].PtrCell?
  }

  /** A command line without errors that names no parameter twice loses no string: all that it has
      allocated is held by the parameters. */
  lemma LosesNothing(ps: seq<Param>, argv: seq<string>, willing: nat -> bool)
    requires Declared(ps) && DistinctNames(ps) && Fresh(ps) && CStrings(argv) && NoRepeats(ps, argv, 1)
    requires CommandLineParsed(ps, Heap(map[], 0), argv, willing).err == NoError
    ensures var r := CommandLineParsed(ps, Heap(map[], 0), argv, willing); AllHeld(r.params, r.heap)
  {
    var h, qs := Heap(map[], 0), ResetAll(ps);
    ResetDeclared(ps, h);
    assert Held(qs) == {} && Owned(ps, h);
    forall a | 0 <= a < |argv| ensures MatchIndex(qs, argv[a], 0) == MatchIndex(ps, argv[a], 0) {
      SameMatch(ps, qs, argv[a]);
    }
    if argv != [] {
      ParseLosesNothing(qs, h, argv, 1, willing);
    }
  }

  /** A program that parses its arguments and frees them at the end, with whatever the command line
      contains and however many allocations fail: everything it frees is live and was allocated by
      the parse, nothing is freed twice, and no counter exceeds its variable.  If no argument is in error and no
      parameter is named twice, nothing is left behind. */
  method ParseThenFree(c: CommandLine, argv: seq<string>) returns (ret: Return)
    requires Declared(c.params[..]) && CStrings(argv)
    requires forall i :: 0 <= i < c.params.Length ==>
               c.params[i].num == 0 && forall j :: 0 <= j < |c.params[i].cells| ==> !c.params[i].cells[j].PtrCell?
    requires c.heap == Heap(map[], 0)
    modifies c, c.params
    ensures forall i :: 0 <= i < c.params.Length ==> c.params[i].num <= |c.params[i].cells|
    ensures c.heap.live.Keys !! Held(c.params[..])
    ensures DistinctNames(old(c.params[..])) && NoRepeats(old(c.params[..]), argv, 1)
            && CommandLineParsed(old(c.params[..]), old(c.heap), argv, c.willing).err == NoError
            ==> c.heap.live == map[]
  {
    ghost var ps := c.params[..];
    assert Owned(ps, c.heap);
    ResetDeclared(ps, c.heap);
    ParseFromOwned(ResetAll(ps), c.heap, argv, if argv == [] then 0 else 1, NoError, c.willing);
    var err;
    ret, err := c.ParseArgs(argv);
    assert Owned(c.params[..], c.heap);
    if DistinctNames(ps) && NoRepeats(ps, argv, 1) && err == NoError {
      LosesNothing(ps, argv, c.willing);
      assert AllHeld(c.params[..], c.heap);
    }
    assert forall i :: 0 <= i < c.params.Length ==> WellFormed(c.params[..][i]);
    c.FreeArgs();
  }
}
