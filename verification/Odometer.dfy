/** The counter behind `urt_get_free_name` (src/registry.c): five base-37 digits and a `$`. */
module Odometer {
  import opened Common
  import opened Names

  const BASE: nat := 37
  const DIGITS: nat := NAME_LEN - 1
  const PERIOD: nat := 69343957

  predicate IsDigit(c: char) { c == '_' || '0' <= c <= '9' || 'A' <= c <= 'Z' }

  predicate AllDigits(s: string) { forall i :: 0 <= i < |s| ==> IsDigit(s[i]) }

  function DigitValue(c: char): (v: nat)
    requires IsDigit(c)
    ensures v < BASE
  {
    if c == '_' then 0 else if c <= '9' then c as nat - '0' as nat + 1
    else c as nat - 'A' as nat + 11
  }

  function DigitChar(v: nat): (c: char)
    requires v < BASE
    ensures IsDigit(c) && DigitValue(c) == v
  {
    if v == 0 then '_' else if v <= 10 then ('0' as int + v - 1) as char
    else ('A' as int + v - 11) as char
  }

  function Power(n: nat): (p: nat)
    ensures p >= 1
  {
    if n == 0 then 1 else BASE * Power(n - 1)
  }

  lemma PeriodIsPower()
    ensures Power(DIGITS) == PERIOD
  {
    assert Power(1) == 37;
    assert Power(2) == 1369;
    assert Power(3) == 50653;
    assert Power(4) == 1874161;
  }

  /** The number that a string of digits stands for. */
  function Value(s: string): (v: nat)
    requires AllDigits(s)
    ensures v < Power(|s|)
  {
    if s == "" then 0 else BASE * Value(s[..|s| - 1]) + DigitValue(s[|s| - 1])
  }

  /** The `n`-digit string that stands for `v`. */
  function Encode(v: nat, n: nat): (s: string)
    requires v < Power(n)
    ensures |s| == n && AllDigits(s)
  {
    if n == 0 then "" else Encode(v / BASE, n - 1) + [DigitChar(v % BASE)]
  }

  lemma {:induction false} ValueOfEncode(v: nat, n: nat)
    requires v < Power(n)
    ensures Value(Encode(v, n)) == v
  {
    if n > 0 {
      ValueOfEncode(v / BASE, n - 1);
      assert Encode(v, n)[..n - 1] == Encode(v / BASE, n - 1);
    }
  }

  lemma DigitCharOfValue(c: char)
    requires IsDigit(c)
    ensures DigitChar(DigitValue(c)) == c
  {}

  lemma DivMod(q: nat, r: nat)
    requires r < BASE
    ensures (BASE * q + r) / BASE == q && (BASE * q + r) % BASE == r
  {}

  lemma {:induction false} EncodeOfValue(s: string)
    requires AllDigits(s)
    ensures Encode(Value(s), |s|) == s
  {
    if s != "" {
      var init, last := s[..|s| - 1], s[|s| - 1];
      EncodeOfValue(init);
      DigitCharOfValue(last);
      DivMod(Value(init), DigitValue(last));
      assert s == init + [last];
    }
  }

  /** The shape that `urt_registry_init` gives the counter. */
  predicate WellFormed(s: string)
  {
    |s| == NAME_LEN && AllDigits(s[..DIGITS]) && s[DIGITS] == '$'
  }

  function Number(s: string): (v: nat)
    requires WellFormed(s)
    ensures v < PERIOD
  {
    PeriodIsPower();
    Value(s[..DIGITS])
  }

  lemma NameExists(v: nat) returns (s: string)
    requires v < PERIOD
    ensures WellFormed(s) && Number(s) == v
  {
    PeriodIsPower();
    s := Encode(v, DIGITS) + "$";
    assert s[..DIGITS] == Encode(v, DIGITS);
    ValueOfEncode(v, DIGITS);
  }

  lemma NumberInjective(s: string, t: string)
    requires WellFormed(s) && WellFormed(t) && Number(s) == Number(t)
    ensures s == t
  {
    EncodeOfValue(s[..DIGITS]);
    EncodeOfValue(t[..DIGITS]);
    assert s == s[..DIGITS] + "$" && t == t[..DIGITS] + "$";
  }

  /** The generated name with number `v`: well-formed names and numbers below 37^5 correspond one to
      one. */
  ghost function FreeName(v: nat): (s: string)
    requires v < PERIOD
    ensures |s| == NAME_LEN && WellFormed(s)
  {
    assert exists s :: WellFormed(s) && Number(s) == v by {
      var s := NameExists(v);
    }
    var s :| WellFormed(s) && Number(s) == v; s
  }

  lemma NumberOfFreeName(v: nat)
    requires v < PERIOD
    ensures Number(FreeName(v)) == v
  {}

  lemma FreeNameOfNumber(s: string)
    requires WellFormed(s)
    ensures FreeName(Number(s)) == s
  {
    NumberInjective(FreeName(Number(s)), s);
  }

  lemma FreeNameInjective(v: nat, w: nat)
    requires v < PERIOD && w < PERIOD && FreeName(v) == FreeName(w)
    ensures v == w
  {
    NumberOfFreeName(v);
    NumberOfFreeName(w);
  }

  // ---------------------------------------------------------------------------------------
  // Incrementing in place

  function NextChar(c: char): char
    requires IsDigit(c) && c != 'Z'
  {
    DigitChar(DigitValue(c) + 1)
  }

  /** Where the carry stops: the last position below `n` that is not a `Z`, or -1. */
  function CarryStop(s: string, n: nat): (i: int)
    requires n <= |s|
    ensures -1 <= i < n
    ensures i >= 0 ==> s[i] != 'Z'
    ensures forall j :: i < j < n ==> s[j] == 'Z'
  {
    if n == 0 then -1 else if s[n - 1] != 'Z' then n - 1 else CarryStop(s, n - 1)
  }

  lemma CarryStopUnique(s: string, n: nat, i: int)
    requires n <= |s| && -1 <= i < n && (i >= 0 ==> s[i] != 'Z')
    requires forall j :: i < j < n ==> s[j] == 'Z'
    ensures CarryStop(s, n) == i
  {}

  function Blanks(n: nat): string { seq(n, _ => '_') }

  /** The digits after a carry that stops at `i`. */
  function Successor(s: string, i: nat): (t: string)
    requires AllDigits(s) && i < |s| && s[i] != 'Z'
    ensures |t| == |s| && AllDigits(t)
    ensures forall j :: 0 <= j < |s| ==>
              t[j] == if j < i then s[j] else if j == i then NextChar(s[i]) else '_'
  {
    s[..i] + [NextChar(s[i])] + Blanks(|s| - 1 - i)
  }

  lemma ValueOfLast(s: string, init: string, last: char)
    requires AllDigits(init) && IsDigit(last) && s == init + [last]
    ensures AllDigits(s) && Value(s) == BASE * Value(init) + DigitValue(last)
  {
    assert s[..|s| - 1] == init;
  }

  /** Replacing the digits from the carry stop on adds one. */
  lemma {:induction false} CarryAddsOne(s: string)
    requires AllDigits(s)
    ensures var i := CarryStop(s, |s|);
            if i < 0 then Value(s) == Power(|s|) - 1
            else Value(Successor(s, i)) == Value(s) + 1
  {
    if s != "" {
      var i, n := CarryStop(s, |s|), |s| - 1;
      var init, last := s[..n], s[n];
      ValueOfLast(s, init, last);
      if i == n {
        ValueOfLast(Successor(s, n), init, NextChar(last));
      } else {
        CarryStopUnique(init, n, i);
        CarryAddsOne(init);
        if i >= 0 {
          ValueOfLast(Successor(s, i), Successor(init, i), '_');
        }
      }
    }
  }

  lemma BlanksAreZero(n: nat)
    ensures AllDigits(Blanks(n)) && Value(Blanks(n)) == 0
  {
    if n > 0 {
      BlanksAreZero(n - 1);
      assert Blanks(n)[..n - 1] == Blanks(n - 1);
    }
  }

  /** The counter as `urt_registry_init` leaves it. */
  lemma InitialCounter()
    ensures WellFormed(Blanks(DIGITS) + "$") && Number(Blanks(DIGITS) + "$") == 0
  {
    BlanksAreZero(DIGITS);
    assert (Blanks(DIGITS) + "$")[..DIGITS] == Blanks(DIGITS);
  }

  /** The loops that write the counter's initial value. */
  method ResetName(name: array<char>)
    requires name.Length > NAME_LEN
    modifies name
    ensures name[..NAME_LEN] == Blanks(DIGITS) + "$"
    ensures name[NAME_LEN..] == old(name[NAME_LEN..])
  {
    var i := 0;
    while i < DIGITS
      invariant i <= DIGITS
      invariant forall j :: 0 <= j < i ==> name[j] == '_'
      invariant name[NAME_LEN..] == old(name[NAME_LEN..])
    {
      name[i] := '_';
      i := i + 1;
    }
    name[DIGITS] := '$';
  }

  /** What `_increment_name` leaves in the buffer and returns, for any buffer contents. */
  function Incremented(s: string): (r: (string, int))
    requires |s| == NAME_LEN
    ensures |r.0| == NAME_LEN
  {
    var i := CarryStop(s, DIGITS);
    if i < 0 then (Blanks(DIGITS) + "$", 1)
    else if !IsDigit(s[i]) then (Blanks(DIGITS) + "$", -1)
    else (s[..i] + [NextChar(s[i])] + Blanks(DIGITS - 1 - i) + [s[DIGITS]], 0)
  }

  /** The counter when the carry has blanked the last `n` digits and is not finished. */
  function Torn(s: string, n: nat): string
    requires |s| == NAME_LEN && n <= DIGITS
  {
    s[..DIGITS - n] + Blanks(n) + [s[DIGITS]]
  }

  /** The number of `Z` digits the carry has to pass. */
  function CarryLength(s: string): nat
    requires |s| == NAME_LEN
  {
    DIGITS - 1 - CarryStop(s, DIGITS)
  }

  /** The digits in their order, `_`, `0` to `9`, `A` to `Z`: the one at `i` goes up to the next, those
      behind it from the last to the first, and nothing else changes. */
  predicate OneUp(s: string, t: string, i: nat)
  {
    && |s| == |t| == 6 && i < 5
    && (|| (s[i] == '_' && t[i] == '0') || (s[i] == '9' && t[i] == 'A')
        || ('0' <= s[i] < '9' && t[i] as int == s[i] as int + 1)
        || ('A' <= s[i] < 'Z' && t[i] as int == s[i] as int + 1))
    && (forall j :: i < j < 5 ==> s[j] == 'Z' && t[j] == '_')
    && (forall j :: 0 <= j < 6 && (j < i || j == 5) ==> t[j] == s[j])
  }

  /** A character of the counter's alphabet. */
  predicate Plain(c: char) { c == '_' || '0' <= c <= '9' || 'A' <= c <= 'Z' }

  /** What `_increment_name` does to any buffer, character by character: after the trailing `Z`s, of
      which there are five, or which a character outside the alphabet stops, or one that goes up. */
  lemma IncrementedChar(s: string, i: int)
    requires |s| == 6 && -1 <= i < 5 && (i >= 0 ==> s[i] != 'Z') && forall j :: i < j < 5 ==> s[j] == 'Z'
    ensures i < 0 ==> Incremented(s) == ("_____$", 1)
    ensures i >= 0 && !Plain(s[i]) ==> Incremented(s) == ("_____$", -1)
    ensures i >= 0 && Plain(s[i]) ==> Incremented(s).1 == 0 && OneUp(s, Incremented(s).0, i)
  {
    CarryStopUnique(s, DIGITS, i);
    assert Blanks(DIGITS) + "$" == "_____$";
    if i >= 0 && Plain(s[i]) {
      IncrementedChars(s, i);
    }
  }

  /** `_increment_name`.  `carries` is what the buffer held after each write of the carry. */
  method IncrementName(name: array<char>) returns (ret: int, ghost carries: seq<string>)
    requires name.Length > NAME_LEN
    modifies name
    ensures (name[..NAME_LEN], ret) == Incremented(old(name[..NAME_LEN]))
    ensures name[NAME_LEN..] == old(name[NAME_LEN..])
    ensures |carries| == CarryLength(old(name[..NAME_LEN]))
    ensures forall k :: 0 <= k < |carries| ==> carries[k] == Torn(old(name[..NAME_LEN]), k + 1)
  {
    carries := [];
    ghost var was := name[..NAME_LEN];
    ghost var stop := CarryStop(was, DIGITS);
    var i: int := DIGITS - 1;
    while i >= 0
      invariant stop <= i < DIGITS
      invariant forall j :: 0 <= j <= i ==> name[j] == was[j]
      invariant forall j :: i < j < DIGITS ==> name[j] == '_'
      invariant name[DIGITS] == was[DIGITS] && name[NAME_LEN..] == old(name[NAME_LEN..])
      invariant |carries| == DIGITS - 1 - i
      invariant forall k :: 0 <= k < |carries| ==> carries[k] == Torn(was, k + 1)
    {
      var finished := true;
      var digit := name[i];
      if digit == '_' {
        digit := '0';
      } else if '0' <= digit < '9' {
        digit := (digit as int + 1) as char;
      } else if digit == '9' {
        digit := 'A';
      } else if 'A' <= digit < 'Z' {
        digit := (digit as int + 1) as char;
      } else if digit == 'Z' {
        digit := '_';
        finished := false;
      } else {
        assert stop == i;
        ResetName(name);
        return -1, carries;
      }
      name[i] := digit;
      if finished {
        assert stop == i && digit == NextChar(was[i]);
        assert name[..NAME_LEN] == was[..i] + [digit] + Blanks(DIGITS - 1 - i) + [was[DIGITS]];
        break;
      }
      assert name[..NAME_LEN] == Torn(was, DIGITS - i);
      carries := carries + [name[..NAME_LEN]];
      i := i - 1;
    }
    if i < 0 {
      ResetName(name);
      return 1, carries;
    }
    return 0, carries;
  }

  /** On a well-formed counter the increment is addition of one modulo 37^5; it reports the
      wrap exactly at the top and never reports an internal error. */
  lemma IncrementedNumber(s: string)
    requires WellFormed(s)
    ensures WellFormed(Incremented(s).0)
    ensures Number(Incremented(s).0) == (Number(s) + 1) % PERIOD
    ensures Incremented(s).1 == if Number(s) == PERIOD - 1 then 1 else 0
  {
    var d := s[..DIGITS];
    var i := CarryStop(s, DIGITS);
    PeriodIsPower();
    CarryStopUnique(d, DIGITS, i);
    CarryAddsOne(d);
    InitialCounter();
    if i >= 0 {
      assert Incremented(s).0[..DIGITS] == Successor(d, i);
    }
  }

  /** The counter after `n` increments. */
  function Advanced(s: string, n: nat): (r: string)
    requires |s| == NAME_LEN
    ensures |r| == NAME_LEN
  {
    if n == 0 then s else Incremented(Advanced(s, n - 1)).0
  }

  // ---------------------------------------------------------------------------------------
  // A counter that is not well formed

  /** The last position below `n` that does not hold a digit, or -1. */
  function LastBad(s: string, n: nat): (i: int)
    requires n <= |s|
    ensures -1 <= i < n
    ensures i >= 0 ==> !IsDigit(s[i])
    ensures forall j :: i < j < n ==> IsDigit(s[j])
  {
    if n == 0 then -1 else if !IsDigit(s[n - 1]) then n - 1 else LastBad(s, n - 1)
  }

  /** The digits after the last bad position. */
  function GoodTail(s: string): (t: string)
    requires |s| == NAME_LEN
    ensures AllDigits(t) && |t| == DIGITS - 1 - LastBad(s, DIGITS)
    ensures forall k :: 0 <= k < |t| ==> t[k] == s[LastBad(s, DIGITS) + 1 + k]
  {
    var o := LastBad(s, DIGITS) + 1;
    seq(DIGITS - o, k requires 0 <= k < DIGITS - o => s[o + k])
  }

  /** How many increments it takes until the carry reaches the bad position, or the front. */
  function UntilReset(s: string): (n: nat)
    requires |s| == NAME_LEN
    ensures n > 0
  {
    Power(|GoodTail(s)|) - Value(GoodTail(s))
  }

  /** Where the carry stops, seen from the tail. */
  lemma CarryStopShift(s: string, o: nat, tail: string)
    requires o + |tail| <= |s| && (o > 0 ==> s[o - 1] != 'Z')
    requires forall k :: 0 <= k < |tail| ==> tail[k] == s[o + k]
    ensures var stop := CarryStop(tail, |tail|);
            CarryStop(s, o + |tail|) == if stop >= 0 then o + stop else o - 1
  {
    var stop := CarryStop(tail, |tail|);
    var i := if stop >= 0 then o + stop else o - 1;
    forall j | i < j < o + |tail| ensures s[j] == 'Z' {
      assert tail[j - o] == s[o + (j - o)];
    }
    CarryStopUnique(s, o + |tail|, i);
  }

  lemma CarryStopOfTail(s: string)
    requires |s| == NAME_LEN
    ensures var bad, stop := LastBad(s, DIGITS), CarryStop(GoodTail(s), |GoodTail(s)|);
            CarryStop(s, DIGITS) == if stop >= 0 then bad + 1 + stop else bad
  {
    var o, tail := LastBad(s, DIGITS) + 1, GoodTail(s);
    assert o > 0 ==> s[o - 1] != 'Z';
    CarryStopShift(s, o, tail);
  }

  /** What an increment without reset does to each character. */
  lemma IncrementedChars(s: string, i: nat)
    requires |s| == NAME_LEN && CarryStop(s, DIGITS) == i && IsDigit(s[i])
    ensures s[i] != 'Z'
    ensures forall j :: 0 <= j < NAME_LEN ==>
              Incremented(s).0[j] == if j == i then NextChar(s[i])
                                     else if i < j < DIGITS then '_' else s[j]
  {}

  /** The bad position stays where it is. */
  lemma BadStays(s: string, i: nat)
    requires |s| == NAME_LEN && LastBad(s, DIGITS) < i && CarryStop(s, DIGITS) == i
    ensures LastBad(Incremented(s).0, DIGITS) == LastBad(s, DIGITS)
  {
    IncrementedChars(s, i);
    LastBadUnique(Incremented(s).0, DIGITS, LastBad(s, DIGITS));
  }

  /** The good digits are one more. */
  lemma TailIncremented(s: string)
    requires |s| == NAME_LEN && CarryStop(GoodTail(s), |GoodTail(s)|) >= 0
    ensures UntilReset(Incremented(s).0) == UntilReset(s) - 1
  {
    CarryStopOfTail(s);
    var bad, tail := LastBad(s, DIGITS), GoodTail(s);
    var stop := CarryStop(tail, |tail|);
    BadStays(s, bad + 1 + stop);
    IncrementedChars(s, bad + 1 + stop);
    assert GoodTail(Incremented(s).0) == Successor(tail, stop);
    CarryAddsOne(tail);
  }

  lemma LastBadUnique(s: string, n: nat, i: int)
    requires n <= |s| && -1 <= i < n && (i >= 0 ==> !IsDigit(s[i]))
    requires forall j :: i < j < n ==> IsDigit(s[j])
    ensures LastBad(s, n) == i
  {}

  /** An increment resets a counter that is not well formed, or brings the reset one nearer. */
  lemma ResetNearer(s: string)
    requires |s| == NAME_LEN && !WellFormed(s)
    ensures var s' := Incremented(s).0;
            WellFormed(s') || UntilReset(s') == UntilReset(s) - 1
  {
    if CarryStop(GoodTail(s), |GoodTail(s)|) >= 0 {
      TailIncremented(s);
    } else {
      CarryStopOfTail(s);
      InitialCounter();
    }
  }

  /** The next counter is well formed, or it is one increment nearer to the reset. */
  predicate Nearer(s: string, s': string)
  {
    |s| == |s'| == NAME_LEN && (WellFormed(s') || UntilReset(s') < UntilReset(s))
  }

  lemma NearerNext(s: string, n: nat)
    requires |s| == NAME_LEN && !WellFormed(Advanced(s, n))
    ensures Nearer(Advanced(s, n), Advanced(s, n + 1))
  {
    ResetNearer(Advanced(s, n));
  }

  lemma {:induction false} WellFormedFrom(s: string, n: nat, r: nat) returns (m: nat)
    requires |s| == NAME_LEN && UntilReset(Advanced(s, n)) <= r
    ensures n <= m <= n + r && WellFormed(Advanced(s, m))
    decreases r
  {
    m := n;
    if !WellFormed(Advanced(s, n)) {
      NearerNext(s, n);
      if WellFormed(Advanced(s, n + 1)) {
        m := n + 1;
      } else {
        m := WellFormedFrom(s, n + 1, r - 1);
      }
    }
  }

  /** Whatever the counter holds, it is well formed after at most that many increments. */
  lemma WellFormedInTime(s: string) returns (n: nat)
    requires |s| == NAME_LEN
    ensures n <= UntilReset(s) && WellFormed(Advanced(s, n))
  {
    n := WellFormedFrom(s, 0, UntilReset(s));
  }

  // ---------------------------------------------------------------------------------------
  // A crash in the middle of an increment

  lemma {:induction false} BlankedValue(d: string, n: nat)
    requires AllDigits(d) && n <= |d| && forall j :: |d| - n <= j < |d| ==> d[j] == 'Z'
    ensures var t := d[..|d| - n] + Blanks(n);
            AllDigits(t) && Value(t) + Power(n) == Value(d) + 1
  {
    var t := d[..|d| - n] + Blanks(n);
    if n == 0 {
      assert t == d;
    } else {
      var m := |d| - 1;
      BlankedValue(d[..m], n - 1);
      assert t[..m] == d[..m][..m - (n - 1)] + Blanks(n - 1) && t[m] == '_';
    }
  }

  /** A crash in the middle of a carry leaves a well-formed counter; it is set back by the value
      of the digits that were blanked. */
  lemma TornCounter(s: string, n: nat)
    requires WellFormed(s) && n <= CarryLength(s)
    ensures WellFormed(Torn(s, n)) && Number(Torn(s, n)) == Number(s) - (Power(n) - 1)
  {
    var d := s[..DIGITS];
    BlankedValue(d, n);
    assert Torn(s, n)[..DIGITS] == d[..DIGITS - n] + Blanks(n);
  }

  /** Generated names are converted for the operating system without loss, `$` included: what is apart
      in the registry stays apart there. */
  lemma GeneratedConverts(s: string)
    requires WellFormed(s)
    ensures OsName(s) == Some("/" + s)
  {
    forall j | 0 <= j < |s| ensures IsPortable(s[j]) {
      assert j < DIGITS ==> s[j] == s[..DIGITS][j];
    }
    KeyUnique(s, s);
    CanonicalIffUnchanged(s);
  }

  // ---------------------------------------------------------------------------------------
  // Generated names never meet other names

  const GLOBAL_LOCK_NAME: string := "$URTGL"
  const GLOBAL_MEM_NAME: string := "$URTGM"

  /** No generated name has the key of a `$`-free name or of a reserved name. */
  lemma FreeNamesAreApart(s: string, user: string)
    requires WellFormed(s)
    requires (forall i :: 0 <= i < |user| ==> user[i] != '$')
             || Key(user) == Key(GLOBAL_LOCK_NAME) || Key(user) == Key(GLOBAL_MEM_NAME)
    ensures Key(s) == s && Key(user) != Key(s)
  {
    assert forall j :: 0 <= j < DIGITS ==> s[j] == s[..DIGITS][j];
    KeyUnique(s, s);
    KeyUnique(GLOBAL_LOCK_NAME, GLOBAL_LOCK_NAME);
    KeyUnique(GLOBAL_MEM_NAME, GLOBAL_MEM_NAME);
    assert GLOBAL_LOCK_NAME[0] == '$' && GLOBAL_MEM_NAME[0] == '$' && s[0] != '$';
    assert s[DIGITS] == '$';
  }
}
