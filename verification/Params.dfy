/** Command-line parameters (src/param.c): parsing into the parameters' variables, and freeing the
    strings that parsing has allocated. */
module Params {
  import opened Common
  import opened ParamText

  /** One element of a parameter's variable, as far as the parser has set it. */
  datatype Cell = Unset | IntCell(v: int) | PtrCell(p: nat)

  /** Allocated strings by address; addresses are not used twice. */
  datatype Heap = Heap(live: map<nat, string>, next: nat)

  /** `struct urt_module_param`; `nump` is the counter behind the optional pointer. */
  datatype Param = Param(name: string, kind: Kind, isArray: bool, max: nat,
                         cells: seq<Cell>, num: nat, nump: Option<nat>)

  /** What the declaration macros guarantee. */
  predicate WellFormed(p: Param)
  {
    && Identifier(p.name) && p.max > 0
    && |p.cells| == (if p.isArray then p.max else 1) && p.num <= |p.cells|
  }

  // ---------------------------------------------------------------------------------------
  // One value, one argument

  datatype Conversion = Conversion(err: Errno, cell: Cell, heap: Heap)

  /** `to_charp` copies the value up to the next comma; the others convert a number.  Whether an
      allocation succeeds is up to the environment. */
  function Convert(k: Kind, isArray: bool, value: string, h: Heap, willing: nat -> bool): Conversion
  {
    if k.Charp? then
      if willing(h.next) then
        var text := if isArray then value[..IndexOf(value, ',')] else value;
        Conversion(NoError, PtrCell(h.next), Heap(h.live[h.next := text], h.next + 1))
      else Conversion(ENOMEM, Unset, h.(next := h.next + 1))
    else
      match ConvertInt(k, value)
      case Value(v) => Conversion(NoError, IntCell(v), h)
      case Fails(e) => Conversion(e, Unset, h)
  }

  /** The function pointer that `parse_arg` selects by type. */
  type Converter = (string, Heap) -> Conversion

  function ConverterFor(k: Kind, isArray: bool, willing: nat -> bool): Converter
  {
    (value: string, h: Heap) => Convert(k, isArray, value, h, willing)
  }

  /** The suffixes of a value that the conversion loop of `parse_arg` looks at: for an array the
      ones behind each comma, as long as they are not empty. */
  function Visited(isArray: bool, value: string): (r: seq<string>)
    ensures r != [] && r[0] == value
    decreases |value|
  {
    var next := NextValue(value, ',');
    if isArray && next != "" then [value] + Visited(isArray, next) else [value]
  }

  datatype Filled = Filled(err: Errno, cells: seq<Cell>, index: nat, heap: Heap)

  /** The conversion loop, from position `index` on: it ends with the texts, with the room, or at
      the first error. */
  function Fill(cells: seq<Cell>, texts: seq<string>, index: nat, h: Heap, convert: Converter): (r: Filled)
    requires texts != []
    ensures |r.cells| == |cells|
    ensures r.err == NoError ==> index < r.index <= |cells|
    decreases |texts|
  {
    if index >= |cells| then Filled(E2BIG, cells, index, h)
    else
      var c := convert(texts[0], h);
      if c.err != NoError then Filled(c.err, cells, index, c.heap)
      else if |texts| > 1 then Fill(cells[index := c.cell], texts[1..], index + 1, c.heap, convert)
      else Filled(NoError, cells[index := c.cell], index + 1, c.heap)
  }

  datatype Parse = Parse(err: Errno, param: Param, heap: Heap)

  /** `parse_arg` */
  function Parsed(p: Param, arg: string, h: Heap, willing: nat -> bool): Parse
    requires WellFormed(p)
  {
    var f := Fill(p.cells, Visited(p.isArray, ValueOf(arg)), 0, h,
                  ConverterFor(p.kind, p.isArray, willing));
    if f.err != NoError then Parse(f.err, p.(cells := f.cells), f.heap)
    else Parse(NoError,
               p.(cells := f.cells, num := f.index, nump := if p.nump.Some? then Some(f.index) else None),
               f.heap)
  }

  // ---------------------------------------------------------------------------------------
  // What a parse does with any value

  /** The loop looks at a scalar's whole value, and at an array's value and what follows each of its
      commas, as long as something follows. */
  lemma {:induction false} VisitedLaw(isArray: bool, value: string, i: nat)
    requires i < |Visited(isArray, value)|
    ensures var v := Visited(isArray, value);
            && v[0] == value && (!isArray ==> |v| == 1)
            && (isArray && i + 1 < |v| ==> v[i + 1] == NextValue(v[i], ',') != "")
            && (isArray && i + 1 == |v| ==> NextValue(v[i], ',') == "")
    decreases i
  {
    var next := NextValue(value, ',');
    if isArray && next != "" {
      assert Visited(isArray, value) == [value] + Visited(isArray, next);
      if i > 0 {
        VisitedLaw(isArray, next, i - 1);
      }
    }
  }

  predicate Took(c: Conversion, cell: Cell) { c.err == NoError && cell == c.cell }

  /** The loop converts one text after the other into one element after the other, up to `m`, where it
      is through, has no room, or meets a text that does not convert. */
  ghost predicate StopsAt(cells: seq<Cell>, texts: seq<string>, index: nat, h: Heap, convert: Converter,
                          f: Filled, m: nat)
  {
    && index <= m <= |cells| == |f.cells| && m - index <= |texts| && f.heap == h
    && (forall j :: index <= j < m ==> Took(convert(texts[j - index], h), f.cells[j]))
    && (forall j :: 0 <= j < |cells| && !(index <= j < m) ==> f.cells[j] == cells[j])
    && (|| (f.err == NoError && m - index == |texts| && f.index == m)
        || (f.err == E2BIG && m == |cells| && m - index < |texts|)
        || (f.err != NoError && m < |cells| && m - index < |texts|
            && f.err == convert(texts[m - index], h).err))
  }

  lemma {:induction false} FillLaw(cells: seq<Cell>, texts: seq<string>, index: nat, h: Heap,
                                   convert: Converter) returns (m: nat)
    requires texts != [] && index <= |cells| && forall v :: convert(v, h).heap == h
    ensures StopsAt(cells, texts, index, h, convert, Fill(cells, texts, index, h, convert), m)
    decreases |texts|
  {
    m := index;
    if index < |cells| {
      var c := convert(texts[0], h);
      if c.err == NoError {
        m := index + 1;
        if |texts| > 1 {
          var cells' := cells[index := c.cell];
          m := FillLaw(cells', texts[1..], index + 1, h, convert);
          OneMoreText(cells, texts, index, h, convert, Fill(cells', texts[1..], index + 1, h, convert), m);
        }
      }
    }
  }

  lemma OneMoreText(cells: seq<Cell>, texts: seq<string>, index: nat, h: Heap, convert: Converter,
                    f: Filled, m: nat)
    requires index < |cells| && |texts| > 1 && convert(texts[0], h).err == NoError
    requires StopsAt(cells[index := convert(texts[0], h).cell], texts[1..], index + 1, h, convert, f, m)
    ensures StopsAt(cells, texts, index, h, convert, f, m)
  {
    forall j | index <= j < m ensures Took(convert(texts[j - index], h), f.cells[j]) {
      if j > index {
        assert Took(convert(texts[1..][j - (index + 1)], h), f.cells[j]);
        assert texts[1..][j - (index + 1)] == texts[j - index];
      } else {
        assert f.cells[j] == cells[index := convert(texts[0], h).cell][j];
      }
    }
    forall j | 0 <= j < |cells| && !(index <= j < m) ensures f.cells[j] == cells[j] {
      assert f.cells[j] == cells[index := convert(texts[0], h).cell][j];
    }
  }

  /** The same for integers, without the converter. */
  ghost predicate IntStops(k: Kind, cells: seq<Cell>, texts: seq<string>, h: Heap, f: Filled, m: nat)
    requires !k.Charp?
  {
    && m <= |cells| == |f.cells| && m <= |texts| && f.heap == h
    && (forall j :: 0 <= j < m ==>
          ConvertInt(k, texts[j]).Value? && f.cells[j] == IntCell(ConvertInt(k, texts[j]).v))
    && (forall j :: m <= j < |cells| ==> f.cells[j] == cells[j])
    && (f.err == NoError <==> m == |texts|) && (f.err == NoError ==> f.index == m)
    && (m < |texts| && m == |cells| ==> f.err == E2BIG)
    && (m < |texts| && m < |cells| ==> ConvertInt(k, texts[m]) == Fails(f.err))
  }

  lemma StopsOnInts(k: Kind, isArray: bool, cells: seq<Cell>, texts: seq<string>, h: Heap,
                    willing: nat -> bool, f: Filled, m: nat)
    requires !k.Charp? && StopsAt(cells, texts, 0, h, ConverterFor(k, isArray, willing), f, m)
    ensures IntStops(k, cells, texts, h, f, m)
  {
    IntConversions(k, isArray, h, willing);
    forall j | 0 <= j < m
      ensures ConvertInt(k, texts[j]).Value? && f.cells[j] == IntCell(ConvertInt(k, texts[j]).v)
    {
      assert Took(ConverterFor(k, isArray, willing)(texts[j - 0], h), f.cells[j]);
    }
  }

  /** An argument for an integer parameter, whatever its value: the elements before `m` are the values
      of the texts looked at, the others are as before; success sets the counters to `m`, an error
      leaves them alone. */
  lemma IntParseLaw(p: Param, arg: string, h: Heap, willing: nat -> bool) returns (m: nat)
    requires WellFormed(p) && !p.kind.Charp?
    ensures var r, texts := Parsed(p, arg, h, willing), Visited(p.isArray, ValueOf(arg));
            && IntStops(p.kind, p.cells, texts, h, Filled(r.err, r.param.cells, m, r.heap), m)
            && (r.err == NoError ==> r.param.num == m && (p.nump.Some? ==> r.param.nump == Some(m)))
            && (r.err != NoError ==> r.param.num == p.num && r.param.nump == p.nump)
            && (r.param.nump.Some? <==> p.nump.Some?)
            && r.param.name == p.name && r.param.kind == p.kind && r.param.isArray == p.isArray
            && r.param.max == p.max
  {
    var texts, convert := Visited(p.isArray, ValueOf(arg)), ConverterFor(p.kind, p.isArray, willing);
    IntConversions(p.kind, p.isArray, h, willing);
    m := FillLaw(p.cells, texts, 0, h, convert);
    StopsOnInts(p.kind, p.isArray, p.cells, texts, h, willing, Fill(p.cells, texts, 0, h, convert), m);
  }

  /** An integer conversion is that of its text, and never runs out of room itself. */
  lemma IntConversions(k: Kind, isArray: bool, h: Heap, willing: nat -> bool)
    requires !k.Charp?
    ensures forall v :: ConverterFor(k, isArray, willing)(v, h)
                        == match ConvertInt(k, v)
                           case Value(n) => Conversion(NoError, IntCell(n), h)
                           case Fails(e) => Conversion(e, Unset, h)
    ensures forall v :: ConvertInt(k, v).Fails? ==> ConvertInt(k, v).e in {EINVAL, ERANGE}
  {}

  // ---------------------------------------------------------------------------------------
  // Printing a list and parsing it

  /** `cells` with `vs` written from `index` on, as far as there is room. */
  function Stored(cells: seq<Cell>, index: nat, vs: seq<int>): (r: seq<Cell>)
    ensures |r| == |cells|
  {
    seq(|cells|, j requires 0 <= j < |cells| =>
                   if index <= j < index + |vs| then IntCell(vs[j - index]) else cells[j])
  }

  ghost predicate AllInRange(k: Kind, vs: seq<int>)
  {
    forall i :: 0 <= i < |vs| ==> InRange(k, vs[i])
  }

  function Min(a: nat, b: nat): nat { if a < b then a else b }

  /** In front of a printed list stands its first value. */
  lemma ConvertJoined(k: Kind, isArray: bool, vs: seq<int>, h: Heap, willing: nat -> bool)
    requires !k.Charp? && vs != [] && InRange(k, vs[0])
    ensures Convert(k, isArray, Joined(vs), h, willing) == Conversion(NoError, IntCell(vs[0]), h)
  {
    var rest := if |vs| == 1 then "" else "," + Joined(vs[1..]);
    ConvertOfDecimal(k, vs[0], rest);
    assert Joined(vs) == Decimal(vs[0]) + rest;
  }

  /** Behind its comma stands the list of the others. */
  lemma NextJoined(vs: seq<int>)
    requires vs != []
    ensures Joined(vs) != ""
    ensures |vs| == 1 ==> NextValue(Joined(vs), ',') == ""
    ensures |vs| > 1 ==> NextValue(Joined(vs), ',') == Joined(vs[1..])
  {
    NoCommaInDecimal(vs[0]);
    if |vs| == 1 {
      IndexOfAbsent(Joined(vs), ',');
    } else {
      assert Joined(vs) == Decimal(vs[0]) + [','] + Joined(vs[1..]);
      IndexOfConcat(Decimal(vs[0]), ',', Joined(vs[1..]));
    }
  }

  /** Texts each of which converts to the value beside it. */
  ghost predicate Read(texts: seq<string>, vs: seq<int>, h: Heap, convert: Converter)
  {
    && |texts| == |vs| > 0
    && forall i :: 0 <= i < |texts| ==> convert(texts[i], h) == Conversion(NoError, IntCell(vs[i]), h)
  }

  /** The loop stores the values of such texts until they end or the room does. */
  lemma {:induction false} FillRead(cells: seq<Cell>, texts: seq<string>, vs: seq<int>, index: nat,
                                    h: Heap, convert: Converter)
    requires index <= |cells| && Read(texts, vs, h, convert)
    ensures Fill(cells, texts, index, h, convert)
            == Filled(if index + |vs| <= |cells| then NoError else E2BIG,
                      Stored(cells, index, vs), Min(index + |vs|, |cells|), h)
    decreases |vs|
  {
    if index == |cells| {
      assert Stored(cells, index, vs) == cells;
    } else {
      var cells' := cells[index := IntCell(vs[0])];
      if |vs| == 1 {
        assert cells' == Stored(cells, index, vs);
      } else {
        FillRead(cells', texts[1..], vs[1..], index + 1, h, convert);
        assert Stored(cells', index + 1, vs[1..]) == Stored(cells, index, vs);
      }
    }
  }

  /** The loop looks at a printed list from each of its values on. */
  lemma {:induction false} VisitedJoined(k: Kind, vs: seq<int>, h: Heap, willing: nat -> bool)
    requires !k.Charp? && vs != [] && AllInRange(k, vs)
    ensures Read(Visited(true, Joined(vs)), vs, h, ConverterFor(k, true, willing))
    decreases |vs|
  {
    ConvertJoined(k, true, vs, h, willing);
    VisitedFirst(vs);
    if |vs| > 1 {
      VisitedJoined(k, vs[1..], h, willing);
      ReadFirst(Joined(vs), Visited(true, Joined(vs[1..])), vs, h, ConverterFor(k, true, willing));
    }
  }

  lemma VisitedFirst(vs: seq<int>)
    requires vs != []
    ensures Visited(true, Joined(vs))
            == if |vs| == 1 then [Joined(vs)] else [Joined(vs)] + Visited(true, Joined(vs[1..]))
  {
    NextJoined(vs);
    if |vs| > 1 {
      NextJoined(vs[1..]);
    }
  }

  lemma ReadFirst(text: string, texts: seq<string>, vs: seq<int>, h: Heap, convert: Converter)
    requires vs != [] && convert(text, h) == Conversion(NoError, IntCell(vs[0]), h)
    requires Read(texts, vs[1..], h, convert)
    ensures Read([text] + texts, vs, h, convert)
  {}

  /** `name=list`, the list in quotes or not, the name with `-` for `_` or not. */
  function Argument(front: string, quoted: bool, list: string): string
  {
    front + "=" + if quoted then "\"" + list + "\"" else list
  }

  /** The value of an argument is the text after `=`, in quotes or not; without quotes it must not begin
      with one. */
  lemma ValueOfText(front: string, quoted: bool, text: string)
    requires Identifier(Dashlessly(front)) && (quoted || text == "" || text[0] != '"')
    ensures var arg := Argument(front, quoted, text);
            IndexOf(arg, '=') == |front| && arg[..|front|] == front && ValueOf(arg) == text
  {
    var value := if quoted then "\"" + text + "\"" else text;
    var arg := front + ['='] + value;
    FrontOfArgument(front, value);
    assert Argument(front, quoted, text) == arg;
    Unquoted(arg, text, quoted);
  }

  lemma ValueOfArgument(front: string, quoted: bool, vs: seq<int>)
    requires Identifier(Dashlessly(front)) && vs != []
    ensures var arg := Argument(front, quoted, Joined(vs));
            && IndexOf(arg, '=') == |front| && arg[..|front|] == front
            && ValueOf(arg) == Joined(vs)
  {
    JoinedEnds(vs);
    ValueOfText(front, quoted, Joined(vs));
  }

  lemma FrontOfArgument(front: string, text: string)
    requires Identifier(Dashlessly(front))
    ensures var arg := front + ['='] + text;
            IndexOf(arg, '=') == |front| && arg[..|front|] == front && NextValue(arg, '=') == text
  {
    assert forall i :: 0 <= i < |front| ==> Dashlessly(front)[i] == Dashless(front[i]);
    IndexOfConcat(front, '=', text);
  }

  lemma Unquoted(arg: string, list: string, quoted: bool)
    requires quoted || list == "" || list[0] != '"'
    requires NextValue(arg, '=') == if quoted then "\"" + list + "\"" else list
    requires quoted ==> arg != "" && arg[|arg| - 1] == '"'
    ensures ValueOf(arg) == list
  {
    var value := NextValue(arg, '=');
    if quoted {
      assert value[1..|value| - 1] == list;
    }
  }

  lemma JoinedEnds(vs: seq<int>)
    requires vs != []
    ensures Joined(vs) != "" && Joined(vs)[0] != '"'
  {
    NoCommaInDecimal(vs[0]);
    assert Joined(vs)[0] == Decimal(vs[0])[0];
  }

  /** What the parse of a printed list looks at and how far it gets: an array takes the list, a
      scalar the first value. */
  lemma ReadByParse(p: Param, vs: seq<int>, h: Heap, willing: nat -> bool)
    requires WellFormed(p) && !p.kind.Charp? && vs != [] && AllInRange(p.kind, vs)
    ensures Read(Visited(p.isArray, Joined(vs)), if p.isArray then vs else vs[..1], h,
                 ConverterFor(p.kind, p.isArray, willing))
  {
    if p.isArray {
      VisitedJoined(p.kind, vs, h, willing);
    } else {
      ConvertJoined(p.kind, false, vs, h, willing);
    }
  }

  lemma FillPrinted(p: Param, vs: seq<int>, h: Heap, willing: nat -> bool)
    requires WellFormed(p) && !p.kind.Charp? && vs != [] && AllInRange(p.kind, vs)
    ensures Fill(p.cells, Visited(p.isArray, Joined(vs)), 0, h, ConverterFor(p.kind, p.isArray, willing))
            == Filled(if p.isArray && |vs| > p.max then E2BIG else NoError,
                      Stored(p.cells, 0, vs), Min(|vs|, |p.cells|), h)
  {
    ReadByParse(p, vs, h, willing);
    var taken := if p.isArray then vs else vs[..1];
    FillRead(p.cells, Visited(p.isArray, Joined(vs)), taken, 0, h,
             ConverterFor(p.kind, p.isArray, willing));
    assert Stored(p.cells, 0, taken) == Stored(p.cells, 0, vs);
  }

  /** For every integer parameter, array or scalar, and every non-empty list of its values: the
      argument that prints the list is matched by the parameter's name, and the parse stores the
      list as far as there is room.  Nothing is lost exactly when there is room for all of it.  An
      array reports `E2BIG` otherwise, and its counters keep their values; a scalar keeps the first
      value and reports nothing. */
  lemma RoundTrip(p: Param, front: string, quoted: bool, vs: seq<int>, h: Heap, willing: nat -> bool)
    requires WellFormed(p) && !p.kind.Charp?
    requires Dashlessly(front) == p.name && vs != [] && AllInRange(p.kind, vs)
    ensures var arg := Argument(front, quoted, Joined(vs));
            && Dashlessly(arg[..IndexOf(arg, '=')]) == p.name
            && var r := Parsed(p, arg, h, willing);
               && r.heap == h && r.param.cells == Stored(p.cells, 0, vs)
               && (r.err == NoError && r.param.num == |vs| <==> |vs| <= |p.cells|)
               && (r.err == E2BIG <==> p.isArray && |vs| > p.max)
               && (r.err == E2BIG ==> r.param.num == p.num && r.param.nump == p.nump)
               && (r.err != E2BIG ==>
                     && r.err == NoError && r.param.num == Min(|vs|, |p.cells|)
                     && (p.nump.Some? ==> r.param.nump == Some(r.param.num)))
  {
    ValueOfArgument(front, quoted, vs);
    FillPrinted(p, vs, h, willing);
  }
}
