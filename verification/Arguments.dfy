/** `urt_parse_args` and `urt_free_args` (src/param.c) on a whole command line: what is parsed
    where, and who owns the strings.  The unused first entry of the parameter table is left out. */
module Arguments {
  import opened Common
  import opened ParamText
  import opened Params

  // ---------------------------------------------------------------------------------------
  // Ownership of strings

  /** A pointer stored in a parameter's variable. */
  predicate Stores(ps: seq<Param>, i: nat, j: nat, p: nat)
  {
    i < |ps| && j < |ps[i].cells| && ps[i].cells[j] == PtrCell(p)
  }

  /** Every stored pointer is a live allocation, and no two places store the same one. */
  ghost predicate CellsOwned(ps: seq<Param>, h: Heap)
  {
    && (forall p :: p in h.live ==> p < h.next)
    && (forall i, j, p :: Stores(ps, i, j, p) ==> p in h.live)
    && (forall i, j, i', j', p :: Stores(ps, i, j, p) && Stores(ps, i', j', p) ==> i == i' && j == j')
  }

  /** The first `num` elements of a string parameter are pointers. */
  ghost predicate StringsSet(p: Param)
  {
    p.kind.Charp? ==> forall j :: 0 <= j < p.num && j < |p.cells| ==> p.cells[j].PtrCell?
  }

  ghost predicate Owned(ps: seq<Param>, h: Heap)
  {
    && (forall i :: 0 <= i < |ps| ==> WellFormed(ps[i]) && StringsSet(ps[i]))
    && CellsOwned(ps, h)
  }

  function With(ps: seq<Param>, i: nat, cells: seq<Cell>): seq<Param>
    requires i < |ps|
  {
    ps[i := ps[i].(cells := cells)]
  }

  /** A converter allocates nothing, or one fresh string that it returns. */
  ghost predicate Allocates(convert: Converter)
  {
    forall value, h :: AllocatesAt(convert(value, h), h)
  }

  predicate AllocatesAt(c: Conversion, h: Heap)
  {
    if c.cell.PtrCell? then
      && c.err == NoError && c.cell.p == h.next && c.heap.next == h.next + 1
      && h.next in c.heap.live && c.heap.live == h.live[h.next := c.heap.live[h.next]]
    else c.heap.live == h.live && c.heap.next >= h.next
  }

  lemma ConvertersAllocate(k: Kind, isArray: bool, willing: nat -> bool)
    ensures Allocates(ConverterFor(k, isArray, willing))
  {
    forall value: string, h: Heap ensures AllocatesAt(Convert(k, isArray, value, h, willing), h) {}
  }

  /** Storing one converted value keeps ownership; a pointer that is overwritten is merely lost. */
  lemma StoreOwned(ps: seq<Param>, i: nat, j: nat, h: Heap, c: Conversion)
    requires CellsOwned(ps, h) && i < |ps| && j < |ps[i].cells| && AllocatesAt(c, h)
    ensures c.err != NoError ==> CellsOwned(ps, c.heap)
    ensures c.err == NoError ==> CellsOwned(With(ps, i, ps[i].cells[j := c.cell]), c.heap)
  {
    var ps' := With(ps, i, ps[i].cells[j := c.cell]);
    assert forall a, b, p :: Stores(ps', a, b, p) ==>
      if a == i && b == j then c.cell == PtrCell(p) else Stores(ps, a, b, p);
  }

  lemma {:induction false} FillOwned(ps: seq<Param>, i: nat, texts: seq<string>, index: nat, h: Heap, convert: Converter)
    requires CellsOwned(ps, h) && i < |ps| && Allocates(convert) && texts != []
    ensures var f := Fill(ps[i].cells, texts, index, h, convert);
            CellsOwned(With(ps, i, f.cells), f.heap)
    decreases |texts|
  {
    var p := ps[i];
    assert With(ps, i, p.cells) == ps;
    if index < |p.cells| {
      var c := convert(texts[0], h);
      StoreOwned(ps, i, index, h, c);
      if c.err == NoError && |texts| > 1 {
        var ps' := With(ps, i, p.cells[index := c.cell]);
        FillOwned(ps', i, texts[1..], index + 1, c.heap, convert);
        var f := Fill(p.cells, texts, index, h, convert);
        assert With(ps', i, f.cells) == With(ps, i, f.cells);
      }
    }
  }

  ghost predicate YieldsPointers(convert: Converter)
  {
    forall value, h :: convert(value, h).err == NoError ==> convert(value, h).cell.PtrCell?
  }

  /** In a string parameter pointers are replaced by pointers only, and a successful loop leaves
      no gap. */
  lemma {:induction false} FillSetsPointers(cells: seq<Cell>, texts: seq<string>, index: nat, h: Heap, convert: Converter)
    requires YieldsPointers(convert) && texts != []
    ensures var f := Fill(cells, texts, index, h, convert);
            && (forall j :: 0 <= j < |cells| && cells[j].PtrCell? ==> f.cells[j].PtrCell?)
            && (f.err == NoError ==> forall j :: index <= j < f.index ==> f.cells[j].PtrCell?)
    decreases |texts|
  {
    var c := convert(texts[0], h);
    if index < |cells| && c.err == NoError && |texts| > 1 {
      FillSetsPointers(cells[index := c.cell], texts[1..], index + 1, c.heap, convert);
    }
  }

  /** Parsing one argument, successful or not, keeps ownership, and `num` within the variable. */
  lemma ParsedOwned(ps: seq<Param>, i: nat, arg: string, h: Heap, willing: nat -> bool)
    requires Owned(ps, h) && i < |ps|
    ensures var r := Parsed(ps[i], arg, h, willing);
            Owned(ps[i := r.param], r.heap)
  {
    var p, r := ps[i], Parsed(ps[i], arg, h, willing);
    var convert := ConverterFor(p.kind, p.isArray, willing);
    ConvertersAllocate(p.kind, p.isArray, willing);
    var texts := Visited(p.isArray, ValueOf(arg));
    FillOwned(ps, i, texts, 0, h, convert);
    if p.kind.Charp? {
      FillSetsPointers(p.cells, texts, 0, h, convert);
    }
    var f := Fill(p.cells, texts, 0, h, convert);
    SameCells(With(ps, i, f.cells), ps[i := r.param], f.heap);
  }

  lemma SameCells(ps: seq<Param>, qs: seq<Param>, h: Heap)
    requires CellsOwned(ps, h) && |qs| == |ps|
    requires forall i :: 0 <= i < |ps| ==> qs[i].cells == ps[i].cells
    ensures CellsOwned(qs, h)
  {
    assert forall i, j, p :: Stores(qs, i, j, p) ==> Stores(ps, i, j, p);
  }

  // ---------------------------------------------------------------------------------------
  // A whole command line

  predicate Matches(p: Param, arg: string) { Dashlessly(arg[..IndexOf(arg, '=')]) == p.name }

  predicate IsHelp(arg: string) { arg == "--help" || arg == "-h" }

  /** Arguments are C strings. */
  predicate CStrings(argv: seq<string>)
  {
    forall i :: 0 <= i < |argv| ==> NoNul(argv[i])
  }

  ghost predicate Declared(ps: seq<Param>)
  {
    forall i :: 0 <= i < |ps| ==> WellFormed(ps[i])
  }

  datatype Outcome = Outcome(help: bool, err: Errno, params: seq<Param>, heap: Heap)

  /** What `urt_parse_args` returns: -1 after showing the help text, or the error, if any. */
  datatype Return = HelpShown | Status(err: Errno)

  datatype Progress = Progress(params: seq<Param>, heap: Heap, err: Errno)

  /** The parameters from the j-th on: the argument goes to each that it names, stripped of its
      closing quote from the second one on; `any` says whether there was one before. */
  ghost function SpreadFrom(ps: seq<Param>, h: Heap, arg: string, j: nat, err: Errno, any: bool,
                            willing: nat -> bool): (r: Progress)
    requires Declared(ps) && j <= |ps|
    ensures |r.params| == |ps| && Declared(r.params)
    decreases |ps| - j
  {
    if j == |ps| then Progress(ps, h, if any then err else EINVAL)
    else if Matches(ps[j], arg) then
      var r := Parsed(ps[j], arg, h, willing);
      SpreadFrom(ps[j := r.param], r.heap, Stripped(arg), j + 1,
                 if r.err != NoError then r.err else err, true, willing)
    else SpreadFrom(ps, h, arg, j + 1, err, any, willing)
  }

  /** One argument: it goes to the parameters it names, or it is an error. */
  ghost function ArgParsed(ps: seq<Param>, h: Heap, arg: string, err: Errno, willing: nat -> bool): (r: Progress)
    requires Declared(ps)
    ensures |r.params| == |ps| && Declared(r.params)
  {
    SpreadFrom(ps, h, arg, 0, err, false, willing)
  }

  lemma {:induction false} SpreadOwned(ps: seq<Param>, h: Heap, arg: string, j: nat, err: Errno, any: bool,
                                       willing: nat -> bool)
    requires Owned(ps, h) && j <= |ps|
    ensures var r := SpreadFrom(ps, h, arg, j, err, any, willing); Owned(r.params, r.heap)
    decreases |ps| - j
  {
    if j < |ps| {
      var ps', h', arg', err', any' := OneParam(ps, h, arg, j, err, any, willing);
      SpreadOwned(ps', h', arg', j + 1, err', any', willing);
    }
  }

  lemma OneParam(ps: seq<Param>, h: Heap, arg: string, j: nat, err: Errno, any: bool, willing: nat -> bool)
    returns (ps': seq<Param>, h': Heap, arg': string, err': Errno, any': bool)
    requires Owned(ps, h) && j < |ps|
    ensures Owned(ps', h') && |ps'| == |ps|
    ensures SpreadFrom(ps, h, arg, j, err, any, willing)
            == SpreadFrom(ps', h', arg', j + 1, err', any', willing)
  {
    ps', h', arg', err', any' := ps, h, arg, err, any;
    if Matches(ps[j], arg) {
      ParsedOwned(ps, j, arg, h, willing);
      var r := Parsed(ps[j], arg, h, willing);
      ps', h', arg', any' := ps[j := r.param], r.heap, Stripped(arg), true;
      err' := if r.err != NoError then r.err else err;
    }
  }

  /** The first parameter that matches, or the number of parameters. */
  function MatchIndex(ps: seq<Param>, arg: string, j: nat): (k: nat)
    requires j <= |ps|
    ensures j <= k <= |ps|
    ensures k < |ps| ==> Matches(ps[k], arg)
    ensures forall a :: j <= a < k ==> !Matches(ps[a], arg)
    decreases |ps| - j
  {
    if j == |ps| || Matches(ps[j], arg) then j else MatchIndex(ps, arg, j + 1)
  }

  /** The name of a parameter is the name of its variable: the names are different if every variable
      is declared once. */
  ghost predicate DistinctNames(ps: seq<Param>)
  {
    forall i, j :: 0 <= i < j < |ps| ==> ps[i].name != ps[j].name
  }

  lemma {:induction false} NoneLeft(ps: seq<Param>, h: Heap, arg: string, j: nat, err: Errno, any: bool,
                                    willing: nat -> bool)
    requires Declared(ps) && j <= |ps| && forall i :: j <= i < |ps| ==> !Matches(ps[i], arg)
    ensures SpreadFrom(ps, h, arg, j, err, any, willing) == Progress(ps, h, if any then err else EINVAL)
    decreases |ps| - j
  {
    if j < |ps| {
      NoneLeft(ps, h, arg, j + 1, err, any, willing);
    }
  }

  lemma OthersDoNotMatch(ps: seq<Param>, j: nat, arg: string)
    requires DistinctNames(ps) && j < |ps| && Matches(ps[j], arg)
    ensures forall i :: j < i < |ps| ==> !Matches(ps[i], Stripped(arg))
  {
    forall i | j < i < |ps| ensures !Matches(ps[i], Stripped(arg)) {
      StrippedMatches(ps[i], arg);
    }
  }

  lemma {:induction false} SkipUnnamed(ps: seq<Param>, h: Heap, arg: string, j: nat, k: nat, err: Errno,
                                       any: bool, willing: nat -> bool)
    requires Declared(ps) && j <= k <= |ps| && forall i :: j <= i < k ==> !Matches(ps[i], arg)
    ensures SpreadFrom(ps, h, arg, j, err, any, willing) == SpreadFrom(ps, h, arg, k, err, any, willing)
    decreases k - j
  {
    if j < k {
      SkipUnnamed(ps, h, arg, j + 1, k, err, any, willing);
    }
  }

  /** Where one argument goes when it names parameter `k`. */
  ghost function ParsedAt(ps: seq<Param>, h: Heap, arg: string, k: nat, err: Errno, willing: nat -> bool): Progress
    requires Declared(ps) && k < |ps|
  {
    var r := Parsed(ps[k], arg, h, willing);
    Progress(ps[k := r.param], r.heap, if r.err != NoError then r.err else err)
  }

  lemma LastNamed(ps: seq<Param>, h: Heap, arg: string, k: nat, err: Errno, willing: nat -> bool)
    requires Declared(ps) && k < |ps| && Matches(ps[k], arg)
    requires forall i :: k < i < |ps| ==> !Matches(ps[i], Stripped(arg))
    ensures SpreadFrom(ps, h, arg, k, err, false, willing) == ParsedAt(ps, h, arg, k, err, willing)
  {
    var r := ParsedAt(ps, h, arg, k, err, willing);
    NoneLeft(r.params, r.heap, Stripped(arg), k + 1, r.err, true, willing);
  }

  /** With different names, an argument goes to the one parameter it names and to no other. */
  lemma GoesToOne(ps: seq<Param>, h: Heap, arg: string, err: Errno, willing: nat -> bool)
    requires Declared(ps) && DistinctNames(ps)
    ensures var k := MatchIndex(ps, arg, 0);
            ArgParsed(ps, h, arg, err, willing)
            == if k == |ps| then Progress(ps, h, EINVAL) else ParsedAt(ps, h, arg, k, err, willing)
  {
    var k := MatchIndex(ps, arg, 0);
    SkipUnnamed(ps, h, arg, 0, k, err, false, willing);
    if k < |ps| {
      OthersDoNotMatch(ps, k, arg);
      LastNamed(ps, h, arg, k, err, willing);
    }
  }

  /** The arguments from the i-th on, one after the other: each goes to the parameter it names; an
      argument that names none is an error, but does not end the parse; the last error counts. */
  ghost function ParseFrom(ps: seq<Param>, h: Heap, argv: seq<string>, i: nat, err: Errno,
                           willing: nat -> bool): (r: Outcome)
    requires Declared(ps) && CStrings(argv) && i <= |argv|
    ensures |r.params| == |ps| && Declared(r.params)
    decreases |argv| - i
  {
    if i == |argv| then Outcome(false, err, ps, h)
    else if IsHelp(argv[i]) then Outcome(true, err, ps, h)
    else
      var r := ArgParsed(ps, h, argv[i], err, willing);
      ParseFrom(r.params, r.heap, argv, i + 1, r.err, willing)
  }

  /** The counters of array parameters start from zero. */
  function CountersReset(p: Param): Param
  {
    if p.isArray && p.nump.Some? then p.(nump := Some(0)) else p
  }

  function ResetAll(ps: seq<Param>): (r: seq<Param>)
    ensures |r| == |ps| && forall i :: 0 <= i < |ps| ==> r[i] == CountersReset(ps[i])
    ensures forall i :: 0 <= i < |ps| ==>
              r[i] == ps[i].(nump := if ps[i].nump.None? then None
                                     else if ps[i].isArray then Some(0) else ps[i].nump)
  {
    seq(|ps|, i requires 0 <= i < |ps| => CountersReset(ps[i]))
  }

  lemma ResetDeclared(ps: seq<Param>, h: Heap)
    requires Declared(ps)
    ensures Declared(ResetAll(ps))
    ensures Owned(ps, h) ==> Owned(ResetAll(ps), h)
  {
    if Owned(ps, h) {
      assert forall i :: 0 <= i < |ps| ==> StringsSet(ps[i]);
      SameCells(ps, ResetAll(ps), h);
    }
  }

  /** The whole of `urt_parse_args`; the first argument is the program's name. */
  ghost function CommandLineParsed(ps: seq<Param>, h: Heap, argv: seq<string>, willing: nat -> bool): (r: Outcome)
    requires Declared(ps) && CStrings(argv)
    ensures |r.params| == |ps| && Declared(r.params)
  {
    ResetDeclared(ps, h);
    ParseFrom(ResetAll(ps), h, argv, if argv == [] then 0 else 1, NoError, willing)
  }

  lemma {:induction false} ParseFromAppend(ps: seq<Param>, h: Heap, argv: seq<string>, arg: string, i: nat,
                                           err: Errno, willing: nat -> bool)
    requires Declared(ps) && CStrings(argv) && NoNul(arg) && i <= |argv|
    ensures CStrings(argv + [arg])
    ensures var r := ParseFrom(ps, h, argv, i, err, willing);
            ParseFrom(ps, h, argv + [arg], i, err, willing)
            == if r.help then r
               else if arg == "--help" || arg == "-h" then Outcome(true, r.err, r.params, r.heap)
               else
                 var q := ArgParsed(r.params, r.heap, arg, r.err, willing);
                 Outcome(false, q.err, q.params, q.heap)
    decreases |argv| - i
  {
    var more := argv + [arg];
    if i == |argv| {
      LastArgument(ps, h, more, err, willing);
    } else if !IsHelp(argv[i]) {
      var q := ArgParsed(ps, h, argv[i], err, willing);
      ParseFromAppend(q.params, q.heap, argv, arg, i + 1, q.err, willing);
    }
  }

  lemma LastArgument(ps: seq<Param>, h: Heap, argv: seq<string>, err: Errno, willing: nat -> bool)
    requires Declared(ps) && CStrings(argv) && argv != []
    ensures var arg := argv[|argv| - 1];
            ParseFrom(ps, h, argv, |argv| - 1, err, willing)
            == if arg == "--help" || arg == "-h" then Outcome(true, err, ps, h)
               else
                 var q := ArgParsed(ps, h, arg, err, willing);
                 Outcome(false, q.err, q.params, q.heap)
  {
    var q := ArgParsed(ps, h, argv[|argv| - 1], err, willing);
    assert ParseFrom(q.params, q.heap, argv, |argv|, q.err, willing) == Outcome(false, q.err, q.params, q.heap);
  }

  /** The program's name is not looked at. */
  lemma NoArguments(ps: seq<Param>, h: Heap, prog: string, willing: nat -> bool)
    requires Declared(ps) && NoNul(prog)
    ensures CommandLineParsed(ps, h, [prog], willing) == Outcome(false, NoError, ResetAll(ps), h)
    ensures CommandLineParsed(ps, h, [], willing) == Outcome(false, NoError, ResetAll(ps), h)
  {}

  /** Every argument after it is: the next one is parsed on top of those before it, and `--help` or
      `-h` ends the parse. */
  lemma OneMoreArgument(ps: seq<Param>, h: Heap, argv: seq<string>, arg: string, willing: nat -> bool)
    requires Declared(ps) && CStrings(argv) && NoNul(arg) && argv != []
    ensures CStrings(argv + [arg])
    ensures var r := CommandLineParsed(ps, h, argv, willing);
            CommandLineParsed(ps, h, argv + [arg], willing)
            == if r.help then r
               else if arg == "--help" || arg == "-h" then Outcome(true, r.err, r.params, r.heap)
               else
                 var q := ArgParsed(r.params, r.heap, arg, r.err, willing);
                 Outcome(false, q.err, q.params, q.heap)
  {
    ResetDeclared(ps, h);
    ParseFromAppend(ResetAll(ps), h, argv, arg, 1, NoError, willing);
  }

  /** No command line breaks ownership. */
  lemma {:induction false} ParseFromOwned(ps: seq<Param>, h: Heap, argv: seq<string>, i: nat, err: Errno,
                                          willing: nat -> bool)
    requires Owned(ps, h) && CStrings(argv) && i <= |argv|
    ensures var r := ParseFrom(ps, h, argv, i, err, willing);
            Owned(r.params, r.heap)
    decreases |argv| - i
  {
    if i < |argv| && !IsHelp(argv[i]) {
      SpreadOwned(ps, h, argv[i], 0, err, false, willing);
      var r := ArgParsed(ps, h, argv[i], err, willing);
      ParseFromOwned(r.params, r.heap, argv, i + 1, r.err, willing);
    }
  }

  /** Overwriting the closing quote does not change which parameter the argument names. */
  lemma StrippedMatches(p: Param, arg: string)
    ensures Matches(p, Stripped(arg)) <==> Matches(p, arg)
    ensures NoNul(arg) ==> NoNul(Stripped(arg))
  {
    var s, i := Stripped(arg), IndexOf(arg, '=');
    if s != arg {
      assert i < |arg| - 1;
      assert forall j :: 0 <= j < |s| ==> s[j] == arg[j];
      assert IndexOf(s, '=') == i;
      assert s[..i] == arg[..i];
    }
  }

  /** The addresses in the first `num` elements of string parameters, up to place (i, j). */
  ghost function HeldBefore(ps: seq<Param>, i: nat, j: nat): set<nat>
  {
    set a: nat, b: nat | a < |ps| && b < |ps[a].cells| && b < ps[a].num && (a < i || (a == i && b < j))
                         && ps[a].kind.Charp? && ps[a].cells[b].PtrCell? :: ps[a].cells[b].p
  }

  ghost function Held(ps: seq<Param>): set<nat> { HeldBefore(ps, |ps|, 0) }

  /** One turn of the conversion loop. */
  lemma FillTurn(isArray: bool, cells: seq<Cell>, value: string, index: nat, h: Heap, convert: Converter)
    requires index < |cells|
    ensures var c, next := convert(value, h), NextValue(value, ',');
            Fill(cells, Visited(isArray, value), index, h, convert)
            == if c.err != NoError then Filled(c.err, cells, index, c.heap)
               else if isArray && next != "" then
                 Fill(cells[index := c.cell], Visited(isArray, next), index + 1, c.heap, convert)
               else Filled(NoError, cells[index := c.cell], index + 1, c.heap)
  {
    var texts, next := Visited(isArray, value), NextValue(value, ',');
    assert isArray && next != "" ==> texts[1..] == Visited(isArray, next);
  }

  class CommandLine {
    const params: array<Param>
    const willing: nat -> bool
    var heap: Heap

    constructor (params: array<Param>, willing: nat -> bool)
      ensures this.params == params && this.willing == willing && heap == Heap(map[], 0)
    {
      this.params, this.willing, heap := params, willing, Heap(map[], 0);
    }

    /** One converter call: the error, and the value to store. */
    method ConvertValue(p: Param, value: string) returns (err: Errno, cell: Cell)
      modifies this
      ensures Conversion(err, cell, heap) == ConverterFor(p.kind, p.isArray, willing)(value, old(heap))
    {
      if p.kind.Charp? {
        var len := if p.isArray then IndexOf(value, ',') else |value|;
        if willing(heap.next) {
          var copy := heap.next;
          heap := Heap(heap.live[copy := value[..len]], copy + 1);
          assert value[..|value|] == value;
          return NoError, PtrCell(copy);
        }
        heap := heap.(next := heap.next + 1);
        return ENOMEM, Unset;
      }
      match ConvertInt(p.kind, value) {
        case Value(v) => return NoError, IntCell(v);
        case Fails(e) => return e, Unset;
      }
    }

    /** One value of the conversion loop: convert it and store it. */
    method FillOne(p: Param, cells0: seq<Cell>, value: string, index0: nat)
      returns (err: Errno, cells: seq<Cell>, index: nat)
      requires index0 < |cells0|
      modifies this
      ensures |cells| == |cells0|
      ensures err == NoError ==> index == index0 + 1
      ensures Fill(cells0, Visited(p.isArray, value), index0, old(heap), ConverterFor(p.kind, p.isArray, willing))
              == if err == NoError && p.isArray && NextValue(value, ',') != "" then
                   Fill(cells, Visited(p.isArray, NextValue(value, ',')), index, heap,
                        ConverterFor(p.kind, p.isArray, willing))
                 else Filled(err, cells, index, heap)
    {
      FillTurn(p.isArray, cells0, value, index0, heap, ConverterFor(p.kind, p.isArray, willing));
      cells, index := cells0, index0;
      var cell;
      err, cell := ConvertValue(p, value);
      if err == NoError {
        cells := cells[index := cell];
        index := index + 1;
      }
    }

    /** The conversion loop of `parse_arg` */
    method FillLoop(p: Param, text: string) returns (err: Errno, cells: seq<Cell>, index: nat)
      requires WellFormed(p)
      modifies this
      ensures Filled(err, cells, index, heap)
              == Fill(p.cells, Visited(p.isArray, text), 0, old(heap),
                      ConverterFor(p.kind, p.isArray, willing))
    {
      ghost var convert := ConverterFor(p.kind, p.isArray, willing);
      ghost var all := Fill(p.cells, Visited(p.isArray, text), 0, heap, convert);
      var value := text;
      err, cells, index := NoError, p.cells, 0;
      while true
        invariant |cells| == |p.cells| && (!p.isArray ==> index == 0)
        invariant all == Fill(cells, Visited(p.isArray, value), index, heap, convert)
        decreases |value|
      {
        if index >= p.max {
          return E2BIG, cells, index;
        }
        err, cells, index := FillOne(p, cells, value, index);
        if err != NoError {
          return;
        }
        value := NextValue(value, ',');
        if !p.isArray || value == "" {
          return;
        }
      }
    }

    /** `parse_arg` */
    method ParseArg(i: nat, arg: string) returns (err: Errno, stripped: string)
      requires i < params.Length && WellFormed(params[i])
      modifies this, params
      ensures var r := Parsed(old(params[i]), arg, old(heap), willing);
              err == r.err && heap == r.heap && params[..] == old(params[..])[i := r.param]
      ensures stripped == Stripped(arg)
    {
      stripped := Stripped(arg);
      var p := params[i];
      var cells, index;
      err, cells, index := FillLoop(p, ValueOf(arg));
      p := p.(cells := cells);
      if err == NoError {
        p := p.(num := index, nump := if p.nump.Some? then Some(index) else None);
      }
      params[i] := p;
    }

    /** The `nump` loop of `urt_parse_args` */
    method ResetCounters()
      modifies params
      ensures params[..] == ResetAll(old(params[..]))
    {
      var j := 0;
      while j < params.Length
        invariant j <= params.Length
        invariant forall i :: 0 <= i < j ==> params[i] == CountersReset(old(params[i]))
        invariant forall i :: j <= i < params.Length ==> params[i] == old(params[i])
      {
        if params[j].isArray && params[j].nump.Some? {
          params[j] := params[j].(nump := Some(0));
        }
        j := j + 1;
      }
    }

    /** One turn of the loop over the parameters. */
    method TryParam(j: nat, arg0: string, before: Errno, any0: bool)
      returns (err: Errno, arg: string, any: bool)
      requires j < params.Length && Declared(params[..]) && NoNul(arg0)
      modifies this, params
      ensures Declared(params[..]) && NoNul(arg)
      ensures SpreadFrom(params[..], heap, arg, j + 1, err, any, willing)
              == SpreadFrom(old(params[..]), old(heap), arg0, j, before, any0, willing)
    {
      assert params[..][j] == params[j];
      err, arg, any := before, arg0, any0;
      var m := ParamMatches(params[j].name, arg);
      if m {
        StrippedMatches(params[j], arg);
        var e;
        e, arg := ParseArg(j, arg);
        if e != NoError {
          err := e;
        }
        any := true;
      }
    }

    /** The loop over the parameters for one argument; `before` is the error so far. */
    method ParseOne(arg0: string, before: Errno) returns (err: Errno)
      requires Declared(params[..]) && NoNul(arg0)
      modifies this, params
      ensures Declared(params[..])
      ensures Progress(params[..], heap, err)
              == ArgParsed(old(params[..]), old(heap), arg0, before, willing)
    {
      ghost var all := ArgParsed(params[..], heap, arg0, before, willing);
      err := before;
      var matched, arg := false, arg0;
      var j := 0;
      while j < params.Length
        invariant j <= params.Length && Declared(params[..]) && NoNul(arg)
        invariant all == SpreadFrom(params[..], heap, arg, j, err, matched, willing)
      {
        err, arg, matched := TryParam(j, arg, err, matched);
        j := j + 1;
      }
      if !matched {
        err := EINVAL;
      }
    }

    /** One turn of the loop over the arguments. */
    method ParseNext(argv: seq<string>, i: nat, before: Errno) returns (err: Errno)
      requires Declared(params[..]) && CStrings(argv) && i < |argv| && !IsHelp(argv[i])
      modifies this, params
      ensures Declared(params[..])
      ensures ParseFrom(params[..], heap, argv, i + 1, err, willing)
              == ParseFrom(old(params[..]), old(heap), argv, i, before, willing)
    {
      err := ParseOne(argv[i], before);
    }

    /** `urt_parse_args` */
    method ParseArgs(argv: seq<string>) returns (ret: Return, err: Errno)
      requires Declared(params[..]) && CStrings(argv)
      modifies this, params
      ensures Outcome(ret == HelpShown, err, params[..], heap)
              == CommandLineParsed(old(params[..]), old(heap), argv, willing)
      ensures ret != HelpShown ==> ret == Status(err)
    {
      ResetDeclared(params[..], heap);
      ResetCounters();
      ghost var all := CommandLineParsed(old(params[..]), heap, argv, willing);
      err := NoError;
      var i := if argv == [] then 0 else 1;
      while i < |argv|
        invariant i <= |argv| && Declared(params[..])
        invariant all == ParseFrom(params[..], heap, argv, i, err, willing)
      {
        if IsHelp(argv[i]) {
          return HelpShown, err;
        }
        err := ParseNext(argv, i, err);
        i := i + 1;
      }
      ret := Status(err);
    }

    /** `free`: only a live allocation may be freed. */
    method Free(p: nat)
      requires p in heap.live
      modifies this
      ensures heap == old(heap).(live := old(heap).live - {p})
    {
      heap := heap.(live := heap.live - {p});
    }

    /** `urt_free_args`: what it frees are exactly the strings that the parameters hold, each of
        them live until then. */
    method FreeArgs()
      requires Owned(params[..], heap)
      modifies this
      ensures heap.live == old(heap.live) - Held(params[..])
      ensures Held(params[..]) <= old(heap.live).Keys
    {
      ghost var ps, h := params[..], heap;
      var i := 0;
      while i < params.Length
        invariant i <= params.Length
        invariant heap.live == h.live - HeldBefore(ps, i, 0)
      {
        var p := params[i];
        assert ps[i] == p && WellFormed(ps[i]);
        if p.kind.Charp? {
          var j := 0;
          while j < p.num
            invariant j <= p.num && heap.live == h.live - HeldBefore(ps, i, j)
          {
            assert StringsSet(ps[i]);
            assert Stores(ps, i, j, p.cells[j].p);
            HeldStep(ps, h, i, j);
            Free(p.cells[j].p);
            j := j + 1;
          }
        }
        HeldRow(ps, i);
        i := i + 1;
      }
      HeldIsLive(ps, h);
    }
  }

  /** Two string entries that share a variable, once both are set: what the second frees was freed with
      the first. */
  lemma SharedIsFreedTwice(ps: seq<Param>, a: nat, b: nat)
    requires a < b < |ps| && ps[a].kind.Charp? && ps[b].kind.Charp? && ps[a].cells == ps[b].cells
    requires ps[a].num > 0 && ps[b].num > 0 && ps[b].cells != [] && ps[b].cells[0].PtrCell?
    ensures ps[b].cells[0].p in HeldBefore(ps, b, 0)
  {
    assert ps[a].cells[0] == ps[b].cells[0];
  }

  lemma HeldStep(ps: seq<Param>, h: Heap, i: nat, j: nat)
    requires CellsOwned(ps, h) && i < |ps| && j < |ps[i].cells| && j < ps[i].num
    requires ps[i].kind.Charp? && ps[i].cells[j].PtrCell?
    ensures ps[i].cells[j].p in h.live && ps[i].cells[j].p !in HeldBefore(ps, i, j)
    ensures HeldBefore(ps, i, j + 1) == HeldBefore(ps, i, j) + {ps[i].cells[j].p}
  {
    var p := ps[i].cells[j].p;
    assert Stores(ps, i, j, p);
    forall a: nat, b: nat | a < |ps| && b < |ps[a].cells| && (a < i || (a == i && b < j))
                            && ps[a].cells[b].PtrCell?
      ensures ps[a].cells[b].p != p
    {
      assert Stores(ps, a, b, ps[a].cells[b].p);
    }
  }

  lemma HeldRow(ps: seq<Param>, i: nat)
    requires i < |ps|
    ensures ps[i].kind.Charp? ==> HeldBefore(ps, i, ps[i].num) == HeldBefore(ps, i + 1, 0)
    ensures !ps[i].kind.Charp? ==> HeldBefore(ps, i, 0) == HeldBefore(ps, i + 1, 0)
  {}

  lemma HeldIsLive(ps: seq<Param>, h: Heap)
    requires CellsOwned(ps, h)
    ensures Held(ps) <= h.live.Keys
  {
    forall a: nat, b: nat | a < |ps| && b < |ps[a].cells| && ps[a].cells[b].PtrCell?
      ensures ps[a].cells[b].p in h.live
    {
      assert Stores(ps, a, b, ps[a].cells[b].p);
    }
  }
}
