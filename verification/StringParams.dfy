/** String parameters (src/param.c): what a command line stores in them. */
module StringParams {
  import opened Common
  import opened ParamText
  import opened Params

  /** For a scalar string parameter: the text is copied into a fresh allocation, and the parameter
      points to it; without an allocation the parse fails and the parameter is as before. */
  lemma ScalarString(p: Param, front: string, quoted: bool, text: string, h: Heap, willing: nat -> bool)
    requires WellFormed(p) && !p.isArray && p.kind.Charp?
    requires Dashlessly(front) == p.name && (quoted || text == "" || text[0] != '"')
    ensures var arg := Argument(front, quoted, text);
            && Dashlessly(arg[..IndexOf(arg, '=')]) == p.name
            && var r := Parsed(p, arg, h, willing);
               if willing(h.next) then
                 && r.err == NoError && r.param.cells == [PtrCell(h.next)] && r.param.num == 1
                 && (p.nump.Some? ==> r.param.nump == Some(1))
                 && r.heap.live == h.live[h.next := text] && r.heap.next == h.next + 1
               else
                 && r.err == ENOMEM && r.param == p && r.heap.live == h.live
  {
    ValueOfText(front, quoted, text);
    assert p.cells[0 := PtrCell(h.next)] == [PtrCell(h.next)];
  }

  // ---------------------------------------------------------------------------------------
  // Arrays of strings

  /** `t1,t2,...,tn` */
  function JoinedTexts(ts: seq<string>): string
    requires ts != []
  {
    if |ts| == 1 then ts[0] else ts[0] + "," + JoinedTexts(ts[1..])
  }

  predicate CommaFree(t: string) { forall i :: 0 <= i < |t| ==> t[i] != ',' }

  ghost predicate AllCommaFree(ts: seq<string>)
  {
    forall i :: 0 <= i < |ts| ==> CommaFree(ts[i])
  }

  /** The texts that arrive: the parse ends where nothing follows a comma, so one empty text at the end
      is lost. */
  function Kept(ts: seq<string>): (r: seq<string>)
    ensures |r| <= |ts| && (ts != [] ==> r != [])
  {
    if |ts| > 1 && ts[|ts| - 1] == "" then ts[..|ts| - 1] else ts
  }

  /** All arrive if and only if there is only one, or the last is not empty. */
  lemma KeptIff(ts: seq<string>)
    requires ts != []
    ensures Kept(ts) == ts <==> |ts| == 1 || ts[|ts| - 1] != ""
  {}

  /** The heap after allocating copies of the texts in order. */
  function Allocated(h: Heap, ts: seq<string>): Heap
    decreases |ts|
  {
    if ts == [] then h else Allocated(Heap(h.live[h.next := ts[0]], h.next + 1), ts[1..])
  }

  /** They lie at successive fresh addresses, and nothing else changes. */
  lemma {:induction false} AllocatedLaw(h: Heap, ts: seq<string>)
    requires forall a :: a in h.live ==> a < h.next
    ensures var h' := Allocated(h, ts);
            && h'.next == h.next + |ts|
            && (forall a :: a in h'.live <==> a in h.live || h.next <= a < h.next + |ts|)
            && (forall a :: a in h.live ==> h'.live[a] == h.live[a])
            && (forall i :: 0 <= i < |ts| ==> h'.live[h.next + i] == ts[i])
    decreases |ts|
  {
    if ts != [] {
      var h1 := Heap(h.live[h.next := ts[0]], h.next + 1);
      AllocatedLaw(h1, ts[1..]);
      var h' := Allocated(h1, ts[1..]);
      forall i | 0 <= i < |ts| ensures h'.live[h.next + i] == ts[i] {
        if i > 0 {
          assert h'.live[h1.next + (i - 1)] == ts[1..][i - 1];
        } else {
          assert h.next in h1.live;
        }
      }
    }
  }

  /** `n` pointers to successive addresses from `p` on, written from `index` on. */
  function Pointers(cells: seq<Cell>, index: nat, p: nat, n: nat): (r: seq<Cell>)
    ensures |r| == |cells|
    ensures forall j :: 0 <= j < |cells| ==>
              r[j] == if index <= j < index + n then PtrCell(p + j - index) else cells[j]
  {
    seq(|cells|, j requires 0 <= j < |cells| =>
                   if index <= j < index + n then PtrCell(p + j - index) else cells[j])
  }

  /** What the parse of the texts makes of cells and heap, from `index` on. */
  function FilledTexts(cells: seq<Cell>, ts: seq<string>, index: nat, h: Heap): Filled
    requires index <= |cells| && ts != []
  {
    var k := Kept(ts);
    var m := Min(|k|, |cells| - index);
    Filled(if |k| <= |cells| - index then NoError else E2BIG,
           Pointers(cells, index, h.next, m), index + m, Allocated(h, k[..m]))
  }

  /** In front of the joined texts stands the first, behind its comma the others. */
  lemma TextsApart(ts: seq<string>)
    requires ts != [] && AllCommaFree(ts)
    ensures var v := JoinedTexts(ts);
            && v[..IndexOf(v, ',')] == ts[0]
            && NextValue(v, ',') == if |ts| == 1 then "" else JoinedTexts(ts[1..])
  {
    var v := JoinedTexts(ts);
    assert CommaFree(ts[0]);
    if |ts| == 1 {
      IndexOfAbsent(v, ',');
      assert IndexOf(v, ',') == |v|;
    } else {
      assert v == ts[0] + [','] + JoinedTexts(ts[1..]);
      IndexOfConcat(ts[0], ',', JoinedTexts(ts[1..]));
    }
  }

  /** Nothing stands there exactly if the texts are one empty one. */
  lemma NothingJoined(ts: seq<string>)
    requires ts != []
    ensures JoinedTexts(ts) == "" <==> ts == [""]
  {}

  ghost predicate AllWilling(willing: nat -> bool) { forall a: nat :: willing(a) }

  lemma {:induction false} FillTexts(cells: seq<Cell>, ts: seq<string>, index: nat, h: Heap,
                                     willing: nat -> bool)
    requires index <= |cells| && ts != [] && AllCommaFree(ts) && AllWilling(willing)
    ensures Fill(cells, Visited(true, JoinedTexts(ts)), index, h, ConverterFor(Charp, true, willing))
            == FilledTexts(cells, ts, index, h)
    decreases |ts|
  {
    var v, convert := JoinedTexts(ts), ConverterFor(Charp, true, willing);
    TextsApart(ts);
    if index == |cells| {
      assert Pointers(cells, index, h.next, 0) == cells;
    } else {
      var cells', h' := cells[index := PtrCell(h.next)], Heap(h.live[h.next := ts[0]], h.next + 1);
      assert convert(v, h) == Conversion(NoError, PtrCell(h.next), h');
      if |ts| == 1 || ts[1..] == [""] {
        LastText(cells, ts, index, h, willing);
      } else {
        NothingJoined(ts[1..]);
        FillTexts(cells', ts[1..], index + 1, h', willing);
        FilledMore(cells, ts, index, h);
      }
    }
  }

  lemma LastText(cells: seq<Cell>, ts: seq<string>, index: nat, h: Heap, willing: nat -> bool)
    requires index < |cells| && ts != [] && AllCommaFree(ts) && willing(h.next)
    requires |ts| == 1 || ts[1..] == [""]
    ensures Fill(cells, Visited(true, JoinedTexts(ts)), index, h, ConverterFor(Charp, true, willing))
            == FilledTexts(cells, ts, index, h)
  {
    TextsApart(ts);
    assert Visited(true, JoinedTexts(ts)) == [JoinedTexts(ts)] by {
      if |ts| > 1 {
        NothingJoined(ts[1..]);
      }
    }
    assert Kept(ts) == [ts[0]];
    assert Pointers(cells, index, h.next, 1) == cells[index := PtrCell(h.next)];
    assert Kept(ts)[..1] == [ts[0]];
    OneAllocated(h, ts[0]);
  }

  lemma OneAllocated(h: Heap, text: string)
    ensures Allocated(h, [text]) == Heap(h.live[h.next := text], h.next + 1)
  {
    assert [text][1..] == [];
  }

  lemma FilledMore(cells: seq<Cell>, ts: seq<string>, index: nat, h: Heap)
    requires index < |cells| && |ts| > 1 && ts[1..] != [""]
    ensures FilledTexts(cells, ts, index, h)
            == FilledTexts(cells[index := PtrCell(h.next)], ts[1..], index + 1,
                           Heap(h.live[h.next := ts[0]], h.next + 1))
  {
    var k, k' := Kept(ts), Kept(ts[1..]);
    assert k == [ts[0]] + k';
    var m' := Min(|k'|, |cells| - index - 1);
    assert k[..m' + 1] == [ts[0]] + k'[..m'];
    assert k[..m' + 1][1..] == k'[..m'];
    assert Pointers(cells, index, h.next, m' + 1)
        == Pointers(cells[index := PtrCell(h.next)], index + 1, h.next + 1, m');
  }

  /** For an array of strings and texts without commas, all allocations granted: the elements point to
      fresh copies of the texts, in order, as far as they arrive and there is room; the counters and
      `E2BIG` are as for integers. */
  lemma StringRoundTrip(p: Param, front: string, quoted: bool, ts: seq<string>, h: Heap, willing: nat -> bool)
    requires WellFormed(p) && p.isArray && p.kind.Charp? && AllWilling(willing)
    requires ts != [] && AllCommaFree(ts) && Dashlessly(front) == p.name
    requires quoted || JoinedTexts(ts) == "" || JoinedTexts(ts)[0] != '"'
    ensures var arg, k := Argument(front, quoted, JoinedTexts(ts)), Kept(ts);
            && Dashlessly(arg[..IndexOf(arg, '=')]) == p.name
            && var r, m := Parsed(p, arg, h, willing), Min(|k|, p.max);
               && r.param.cells == Pointers(p.cells, 0, h.next, m) && r.heap == Allocated(h, k[..m])
               && (r.err == E2BIG <==> |k| > p.max) && (r.err == NoError <==> |k| <= p.max)
               && (r.err == NoError ==>
                     r.param.num == |k| && (p.nump.Some? ==> r.param.nump == Some(|k|)))
               && (r.err == E2BIG ==> r.param.num == p.num && r.param.nump == p.nump)
  {
    ValueOfText(front, quoted, JoinedTexts(ts));
    FillTexts(p.cells, ts, 0, h, willing);
  }
}
