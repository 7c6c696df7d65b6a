/** The text side of the command-line parameters (src/param.c): matching a parameter's name,
    finding values, converting numbers.  A C string is modelled by a `string` without its NUL; a
    pointer into it by the suffix it points to. */
module ParamText {
  import opened Common

  datatype Errno = NoError | EINVAL | ERANGE | E2BIG | ENOMEM

  /** The integer types that a parameter can have, and strings. */
  datatype Kind = Byte | Short | Ushort | Int | Uint | Long | Ulong | Charp

  predicate Signed(k: Kind) { k.Short? || k.Int? || k.Long? }

  const LONG_MIN: int := -0x8000_0000_0000_0000
  const LONG_MAX: int := 0x7fff_ffff_ffff_ffff
  const ULONG_MAX: int := 0xffff_ffff_ffff_ffff

  function Least(k: Kind): int
  {
    match k
    case Short => -0x8000
    case Int => -0x8000_0000
    case Long => LONG_MIN
    case _ => 0
  }

  function Greatest(k: Kind): int
  {
    match k
    case Byte => 0xff
    case Short => 0x7fff
    case Ushort => 0xffff
    case Int => 0x7fff_ffff
    case Uint => 0xffff_ffff
    case Long => LONG_MAX
    case _ => ULONG_MAX
  }

  predicate InRange(k: Kind, v: int) { Least(k) <= v <= Greatest(k) }

  // ---------------------------------------------------------------------------------------
  // strtol and strtoul, base 10 (ISO/IEC 9899:2011, section 7.22.1.4)

  predicate IsSpace(c: char)
  {
    c == ' ' || c == '\t' || c == '\n' || c == '\r' || c == 11 as char || c == 12 as char
  }

  predicate IsDigit(c: char) { '0' <= c <= '9' }

  function SkipSpace(s: string): string
  {
    if s != "" && IsSpace(s[0]) then SkipSpace(s[1..]) else s
  }

  /** The number read from the digits at the front of `s`, after `acc` was read. */
  function ReadDigits(s: string, acc: nat): nat
  {
    if s != "" && IsDigit(s[0]) then ReadDigits(s[1..], acc * 10 + (s[0] as nat - '0' as nat)) else acc
  }

  /** Sign and magnitude; without any digits the number is 0. */
  function ReadNumber(s: string): (bool, nat)
  {
    var t := SkipSpace(s);
    if t != "" && t[0] == '-' then (true, ReadDigits(t[1..], 0))
    else if t != "" && t[0] == '+' then (false, ReadDigits(t[1..], 0))
    else (false, ReadDigits(t, 0))
  }

  datatype Converted = Value(v: int) | Fails(e: Errno)

  function Strtol(s: string): Converted
  {
    var (negative, m) := ReadNumber(s);
    var v := if negative then -(m as int) else m;
    if LONG_MIN <= v <= LONG_MAX then Value(v) else Fails(ERANGE)
  }

  /** A minus sign is accepted and negates in the unsigned type. */
  function Strtoul(s: string): Converted
  {
    var (negative, m) := ReadNumber(s);
    if m > ULONG_MAX then Fails(ERANGE)
    else Value(if negative && m > 0 then ULONG_MAX + 1 - m else m)
  }

  /** `to_byte` ... `to_ulong`: the cast to the type must not change the value. */
  function ConvertInt(k: Kind, s: string): Converted
    requires !k.Charp?
  {
    if s == "" then Fails(EINVAL)
    else
      var c := if Signed(k) then Strtol(s) else Strtoul(s);
      if c.Fails? then c else if InRange(k, c.v) then c else Fails(ERANGE)
  }

  // ---------------------------------------------------------------------------------------
  // What the conversion makes of any text

  predicate AllDigits(s: string) { forall i :: 0 <= i < |s| ==> '0' <= s[i] <= '9' }

  /** The number that a string of digits stands for. */
  function DecimalOf(s: string): nat
    requires AllDigits(s)
  {
    if s == "" then 0 else 10 * DecimalOf(s[..|s| - 1]) + (s[|s| - 1] as int - '0' as int)
  }

  predicate AllBlank(s: string)
  {
    forall i :: 0 <= i < |s| ==> s[i] as int == 32 || 9 <= s[i] as int <= 13
  }

  /** A text taken apart: blanks, a sign, digits, and what cannot be read any more. */
  predicate Splits(s: string, blanks: string, sign: string, digits: string, rest: string)
  {
    && s == blanks + sign + digits + rest
    && AllBlank(blanks) && sign in {"", "+", "-"} && AllDigits(digits)
    && (rest != "" ==> !('0' <= rest[0] <= '9'))
    && (sign == "" && digits == "" && rest != "" ==>
          rest[0] != '+' && rest[0] != '-' && rest[0] as int != 32 && !(9 <= rest[0] as int <= 13))
  }

  /** Which value the number `n` with its sign has in a type, if any: the signed types have their range,
      a minus in an unsigned type counts down from 2^64, but the number must be below that. */
  function InType(k: Kind, negative: bool, n: nat): Option<int>
    requires !k.Charp?
  {
    var v: int := if negative then -(n as int) else n;
    var u: int := if n >= 0x1_0000_0000_0000_0000 then -1
                  else if negative && n > 0 then 0x1_0000_0000_0000_0000 - n else n;
    match k
    case Short => if -32768 <= v <= 32767 then Some(v) else None
    case Int => if -2147483648 <= v <= 2147483647 then Some(v) else None
    case Long => if -9223372036854775808 <= v <= 9223372036854775807 then Some(v) else None
    case Byte => if 0 <= u <= 255 then Some(u) else None
    case Ushort => if 0 <= u <= 65535 then Some(u) else None
    case Uint => if 0 <= u <= 4294967295 then Some(u) else None
    case Ulong => if 0 <= u <= 18446744073709551615 then Some(u) else None
  }

  /** The conversion of any text: an empty one is invalid; from any other the blanks, the sign and the
      digits at the front are read, and what follows is ignored. */
  lemma ConvertLaw(k: Kind, s: string, blanks: string, sign: string, digits: string, rest: string)
    requires !k.Charp? && Splits(s, blanks, sign, digits, rest)
    ensures ConvertInt(k, s) == if s == "" then Fails(EINVAL)
                                else match InType(k, sign == "-", DecimalOf(digits))
                                     case Some(v) => Value(v)
                                     case None => Fails(ERANGE)
  {
    if s != "" {
      NumberRead(s, blanks, sign, digits, rest);
      ByNumber(k, s, sign == "-", DecimalOf(digits));
    }
  }

  lemma ByNumber(k: Kind, s: string, negative: bool, n: nat)
    requires !k.Charp? && s != "" && ReadNumber(s) == (negative, n)
    ensures ConvertInt(k, s) == match InType(k, negative, n)
                                case Some(v) => Value(v)
                                case None => Fails(ERANGE)
  {}

  lemma NumberRead(s: string, blanks: string, sign: string, digits: string, rest: string)
    requires Splits(s, blanks, sign, digits, rest)
    ensures ReadNumber(s) == (sign == "-", DecimalOf(digits))
  {
    var u := digits + rest;
    assert s == blanks + (sign + u);
    FrontOf(sign, digits, rest);
    BlanksIgnored(blanks, sign + u);
    SignRead(sign, u);
    AllRead(digits, rest);
  }

  /** Behind the blanks there is none, and a sign only in its place. */
  lemma FrontOf(sign: string, digits: string, rest: string)
    requires Splits(sign + digits + rest, "", sign, digits, rest)
    ensures var u := digits + rest;
            && (sign + u != "" ==> !IsSpace((sign + u)[0]))
            && (sign == "" && u != "" ==> u[0] != '+' && u[0] != '-')
  {
    var u := digits + rest;
    if digits != "" {
      assert u[0] == digits[0];
    } else {
      assert u == rest;
    }
    if sign == "" {
      assert sign + u == u;
    } else {
      assert (sign + u)[0] == sign[0];
    }
  }

  lemma BlanksIgnored(blanks: string, t: string)
    requires AllBlank(blanks) && (t != "" ==> !IsSpace(t[0]))
    ensures ReadNumber(blanks + t) == ReadNumber(t)
  {
    BlanksSkipped(blanks, t);
    assert SkipSpace(t) == t;
  }

  lemma AllRead(digits: string, rest: string)
    requires AllDigits(digits) && (rest != "" ==> !IsDigit(rest[0]))
    ensures ReadDigits(digits + rest, 0) == DecimalOf(digits)
  {
    DigitsRead("", digits, rest);
    assert "" + digits == digits;
  }

  lemma {:induction false} BlanksSkipped(blanks: string, t: string)
    requires AllBlank(blanks) && (t != "" ==> !IsSpace(t[0]))
    ensures SkipSpace(blanks + t) == t
  {
    if blanks == "" {
      assert blanks + t == t;
    } else {
      assert (blanks + t)[1..] == blanks[1..] + t;
      BlanksSkipped(blanks[1..], t);
    }
  }

  /** Reading goes on from the digits read so far. */
  lemma {:induction false} DigitsRead(done: string, digits: string, rest: string)
    requires AllDigits(done) && AllDigits(digits) && (rest != "" ==> !IsDigit(rest[0]))
    ensures ReadDigits(digits + rest, DecimalOf(done)) == DecimalOf(done + digits)
    decreases |digits|
  {
    if digits == "" {
      assert digits + rest == rest && done + digits == done;
    } else {
      var more := done + [digits[0]];
      assert more[..|more| - 1] == done;
      assert (digits + rest)[1..] == digits[1..] + rest;
      DigitsRead(more, digits[1..], rest);
      assert more + digits[1..] == done + digits;
    }
  }

  lemma SignRead(sign: string, u: string)
    requires sign in {"", "+", "-"} && (sign + u != "" ==> !IsSpace((sign + u)[0]))
    requires sign == "" && u != "" ==> u[0] != '+' && u[0] != '-'
    ensures ReadNumber(sign + u) == (sign == "-", ReadDigits(u, 0))
  {
    var t := sign + u;
    assert SkipSpace(t) == t;
    if sign == "" {
      assert t == u;
    } else {
      assert t[0] == sign[0] && t[1..] == u;
    }
  }

  /** Every text can be taken apart like that. */
  lemma EveryTextSplits(s: string) returns (blanks: string, sign: string, digits: string, rest: string)
    ensures Splits(s, blanks, sign, digits, rest)
  {
    var t;
    blanks, t := SplitBlanks(s);
    sign := if t != "" && t[0] == '+' then "+" else if t != "" && t[0] == '-' then "-" else "";
    var u := t[|sign|..];
    digits, rest := SplitDigits(u);
    assert t == sign + u && u == digits + rest;
    assert sign == "" ==> u == t;
    assert digits == "" ==> rest == u;
    assert s == blanks + (sign + (digits + rest));
    assert blanks + (sign + (digits + rest)) == blanks + sign + digits + rest;
  }

  lemma {:induction false} SplitBlanks(s: string) returns (blanks: string, t: string)
    ensures s == blanks + t && AllBlank(blanks)
    ensures t != "" ==> t[0] as int != 32 && !(9 <= t[0] as int <= 13)
  {
    blanks, t := "", s;
    if s != "" && (s[0] as int == 32 || 9 <= s[0] as int <= 13) {
      blanks, t := SplitBlanks(s[1..]);
      blanks := [s[0]] + blanks;
    }
  }

  lemma {:induction false} SplitDigits(s: string) returns (digits: string, rest: string)
    ensures s == digits + rest && AllDigits(digits) && (rest != "" ==> !('0' <= rest[0] <= '9'))
  {
    digits, rest := "", s;
    if s != "" && '0' <= s[0] <= '9' {
      digits, rest := SplitDigits(s[1..]);
      digits := [s[0]] + digits;
    }
  }

  // ---------------------------------------------------------------------------------------
  // Finding values

  /** The position of the first `c`, or the length. */
  function IndexOf(s: string, c: char): (i: nat)
    ensures i <= |s|
    ensures forall j :: 0 <= j < i ==> s[j] != c
    ensures i < |s| ==> s[i] == c
  {
    if s == "" || s[0] == c then 0 else 1 + IndexOf(s[1..], c)
  }

  /** `get_next_value`: what follows the first delimiter, or nothing. */
  function NextValue(s: string, delim: char): (r: string)
    ensures |r| < |s| || r == ""
  {
    var i := IndexOf(s, delim);
    if i < |s| then s[i + 1..] else ""
  }

  /** The value begins with a quote and the argument ends in one; it may be the same. */
  predicate Quoted(arg: string)
  {
    var value := NextValue(arg, '=');
    value != "" && value[0] == '"' && arg[|arg| - 1] == '"'
  }

  /** The argument after the closing quote was overwritten in place, if the value is quoted. */
  function Stripped(arg: string): string
  {
    if Quoted(arg) then arg[..|arg| - 1] else arg
  }

  /** The value of an argument, without the quotes around it. */
  function ValueOf(arg: string): string
  {
    var value := NextValue(arg, '=');
    if !Quoted(arg) then value else if |value| == 1 then "" else value[1..|value| - 1]
  }

  /** The storage of an argument after `parse_arg` has overwritten the closing quote: the argument's
      own terminator is behind it. */
  function Storage(arg: string): (m: string)
    ensures |m| == |arg| + 1
  {
    if Quoted(arg) then arg[..|arg| - 1] + [NUL, NUL] else arg + [NUL]
  }

  /** Where in the storage `parse_arg` leaves the pointer to the value. */
  function ValueOffset(arg: string): nat
  {
    IndexOf(arg, '=') + 1 + if Quoted(arg) then 1 else 0
  }

  /** The C string at offset `o`. */
  function CString(m: string, o: nat): string
    requires o <= |m|
  {
    m[o..][..IndexOf(m[o..], NUL)]
  }

  /** The one argument shape whose value is only the opening quote. */
  predicate LoneQuote(arg: string) { NextValue(arg, '=') == "\"" }

  /** The pointer never leaves the argument's storage, and what it points to is the value.  It passes
      the terminator written for the closing quote exactly when there is no other quote; then it
      points to the argument's own terminator. */
  lemma ValueInStorage(arg: string)
    requires NoNul(arg) && IndexOf(arg, '=') < |arg|
    ensures ValueOffset(arg) < |Storage(arg)|
    ensures CString(Storage(arg), ValueOffset(arg)) == ValueOf(arg)
    ensures ValueOffset(arg) <= |Stripped(arg)| <==> !LoneQuote(arg)
  {
    OffsetInStorage(arg);
    ValueAtOffset(arg);
    TextBefore(Storage(arg), ValueOffset(arg), ValueOf(arg));
  }

  lemma OffsetInStorage(arg: string)
    requires IndexOf(arg, '=') < |arg|
    ensures ValueOffset(arg) <= |arg|
    ensures ValueOffset(arg) <= |Stripped(arg)| <==> !LoneQuote(arg)
  {
    var i := IndexOf(arg, '=');
    assert NextValue(arg, '=') == arg[i + 1..];
    assert |arg| == i + 2 && Quoted(arg) ==> NextValue(arg, '=') == "\"";
  }

  lemma ValueIsSlice(arg: string)
    requires IndexOf(arg, '=') < |arg| && !LoneQuote(arg)
    ensures ValueOffset(arg) <= |Stripped(arg)| && ValueOf(arg) == arg[ValueOffset(arg)..|Stripped(arg)|]
  {
    OffsetInStorage(arg);
    var i, value := IndexOf(arg, '='), NextValue(arg, '=');
    assert value == arg[i + 1..];
    if Quoted(arg) {
      Inner(arg, value, i + 1);
    }
  }

  lemma Inner(arg: string, value: string, o: nat)
    requires o <= |arg| && value == arg[o..] && |value| > 1
    ensures value[1..|value| - 1] == arg[o + 1..|arg| - 1]
  {}

  lemma StorageSlice(arg: string, o: nat, n: nat)
    requires NoNul(arg) && o <= n == |Stripped(arg)|
    ensures n < |Storage(arg)| && Storage(arg)[o..n] == arg[o..n] && Storage(arg)[n] == NUL
    ensures NoNul(arg[o..n])
  {}

  lemma ValueAtOffset(arg: string)
    requires NoNul(arg) && IndexOf(arg, '=') < |arg|
    ensures var m, o, v := Storage(arg), ValueOffset(arg), ValueOf(arg);
            o + |v| < |m| && m[o..o + |v|] == v && m[o + |v|] == NUL && NoNul(v)
  {
    if LoneQuote(arg) {
      LoneOffset(arg);
    } else {
      ValueIsSlice(arg);
      StorageSlice(arg, ValueOffset(arg), |Stripped(arg)|);
    }
  }

  lemma LoneOffset(arg: string)
    requires IndexOf(arg, '=') < |arg| && LoneQuote(arg)
    ensures ValueOf(arg) == "" && ValueOffset(arg) == |arg| && Storage(arg)[|arg|] == NUL
  {
    assert NextValue(arg, '=') == arg[IndexOf(arg, '=') + 1..];
    assert arg[|arg| - 1] == NextValue(arg, '=')[0];
  }

  /** A NUL-free text followed by a NUL is the C string there. */
  lemma TextBefore(m: string, o: nat, text: string)
    requires o + |text| < |m| && m[o..o + |text|] == text && m[o + |text|] == NUL && NoNul(text)
    ensures CString(m, o) == text
  {
    var rest := m[o..];
    assert rest[|text|] == NUL;
    forall j | 0 <= j < |text| ensures rest[j] != NUL {
      assert rest[j] == m[o..o + |text|][j];
    }
    assert IndexOf(rest, NUL) == |text|;
  }

  /** An instance: the argument `a="`. */
  lemma LoneQuoteIsEmpty()
    ensures LoneQuote("a=\"") && Stripped("a=\"") == "a=" && ValueOf("a=\"") == ""
    ensures ValueOffset("a=\"") == 3 == |Stripped("a=\"")| + 1
  {
    var arg := "a=\"";
    assert IndexOf(arg[1..], '=') == 0;
    assert IndexOf(arg, '=') == 1;
    assert NextValue(arg, '=') == arg[2..] == "\"";
    assert arg[..2] == "a=";
  }

  // ---------------------------------------------------------------------------------------
  // Matching names

  function Dashless(c: char): char { if c == '-' then '_' else c }

  /** What C identifiers and argument strings are made of. */
  predicate Identifier(s: string)
  {
    forall i :: 0 <= i < |s| ==> s[i] != '-' && s[i] != '=' && s[i] != NUL
  }

  /** Read without dashes, a text is the name exactly if it is the name but for dashes in the place of
      underscores. */
  lemma DashlessLaw(s: string, name: string)
    ensures Dashlessly(s) == name <==>
              |s| == |name| && forall j :: 0 <= j < |s| ==> name[j] == if s[j] == '-' then '_' else s[j]
  {
    var d := Dashlessly(s);
    assert forall j :: 0 <= j < |s| ==> d[j] == if s[j] == '-' then '_' else s[j];
  }

  predicate NoNul(s: string) { forall i :: 0 <= i < |s| ==> s[i] != NUL }

  function Dashlessly(s: string): (r: string)
    ensures |r| == |s|
  {
    seq(|s|, i requires 0 <= i < |s| => Dashless(s[i]))
  }

  /** `param_matches`: the argument up to its `=`, with `-` read as `_`, is the name. */
  method ParamMatches(name: string, value: string) returns (matches: bool)
    requires Identifier(name) && NoNul(value)
    ensures matches <==> Dashlessly(value[..IndexOf(value, '=')]) == name
    ensures matches <==> |name| == IndexOf(value, '=')
                         && forall j :: 0 <= j < |name| ==> name[j] == if value[j] == '-' then '_' else value[j]
  {
    var i := 0;
    ghost var stop := IndexOf(value, '=');
    while At(name, i) == Dashless(At(value, i)) && At(name, i) != NUL && At(value, i) != NUL
          && At(value, i) != '='
      invariant i <= |name| && i <= stop
      invariant forall j :: 0 <= j < i ==> name[j] == Dashless(value[j])
      decreases |name| - i
    {
      i := i + 1;
    }
    matches := At(name, i) == At(value, i) || (At(name, i) == NUL && At(value, i) == '=');
    ghost var front := Dashlessly(value[..stop]);
    assert forall j :: 0 <= j < stop ==> front[j] == Dashless(value[j]);
    assert stop < |value| ==> value[stop] == '=';
    assert i == |name| && i == stop ==> front == name;
    if front == name {
      assert i == stop;
    }
    DashlessLaw(value[..stop], name);
  }

  // ---------------------------------------------------------------------------------------
  // Printing and reading back

  function Digit(d: nat): char
    requires d < 10
  {
    ('0' as int + d) as char
  }

  function Digits(n: nat): (s: string)
    ensures s != "" && forall i :: 0 <= i < |s| ==> IsDigit(s[i])
  {
    if n < 10 then [Digit(n)] else Digits(n / 10) + [Digit(n % 10)]
  }

  function Decimal(v: int): string
  {
    if v < 0 then "-" + Digits(-v) else Digits(v)
  }

  /** `v1,v2,...,vn` */
  function Joined(vs: seq<int>): string
    requires vs != []
  {
    if |vs| == 1 then Decimal(vs[0]) else Decimal(vs[0]) + "," + Joined(vs[1..])
  }

  lemma {:induction false} ReadOfDigits(n: nat, rest: string)
    ensures ReadDigits(Digits(n) + rest, 0) == ReadDigits(rest, n)
  {
    if n < 10 {
      assert (Digits(n) + rest)[1..] == rest;
    } else {
      var more := [Digit(n % 10)] + rest;
      ReadOfDigits(n / 10, more);
      assert Digits(n) + rest == Digits(n / 10) + more;
      assert more[1..] == rest;
    }
  }

  predicate EndsNumber(rest: string) { rest == "" || rest[0] == ',' }

  lemma ReadOfDecimal(v: int, rest: string)
    requires EndsNumber(rest)
    ensures ReadNumber(Decimal(v) + rest) == (v < 0, if v < 0 then -v else v)
  {
    var n := if v < 0 then -v else v;
    var digits := Digits(n) + rest;
    ReadOfDigits(n, rest);
    assert ReadDigits(digits, 0) == n;
    assert IsDigit(digits[0]);
    if v < 0 {
      ReadSigned(Decimal(v) + rest, digits);
    } else {
      ReadUnsigned(digits);
    }
  }

  lemma ReadSigned(s: string, digits: string)
    requires s == "-" + digits
    ensures ReadNumber(s) == (true, ReadDigits(digits, 0))
  {
    assert SkipSpace(s) == s && s[1..] == digits;
  }

  lemma ReadUnsigned(digits: string)
    requires digits != "" && IsDigit(digits[0])
    ensures ReadNumber(digits) == (false, ReadDigits(digits, 0))
  {
    assert SkipSpace(digits) == digits;
  }

  /** Every value of the type, printed, converts to itself, whatever list follows it. */
  lemma ConvertOfDecimal(k: Kind, v: int, rest: string)
    requires !k.Charp? && InRange(k, v) && EndsNumber(rest)
    ensures ConvertInt(k, Decimal(v) + rest) == Value(v)
  {
    ReadOfDecimal(v, rest);
    assert LONG_MIN <= Least(k);
  }

  lemma NoCommaInDecimal(v: int)
    ensures forall i :: 0 <= i < |Decimal(v)| ==> Decimal(v)[i] != ',' && Decimal(v)[i] != '"'
  {}

  lemma {:induction false} IndexOfConcat(s: string, c: char, t: string)
    requires forall i :: 0 <= i < |s| ==> s[i] != c
    ensures IndexOf(s + [c] + t, c) == |s|
    ensures NextValue(s + [c] + t, c) == t
  {
    var all := s + [c] + t;
    var i := IndexOf(all, c);
    assert all[|s|] == c;
    assert forall j :: 0 <= j < |s| ==> all[j] == s[j];
    assert all[|s| + 1..] == t;
  }

  lemma IndexOfAbsent(s: string, c: char)
    requires forall i :: 0 <= i < |s| ==> s[i] != c
    ensures NextValue(s, c) == ""
  {}
}
