/** Names of shared objects (src/registry.c, sys/posix/src/names.c).

    A C string is modelled by a `string`; reading at or past its end gives NUL.  At most
    `NAME_LEN` characters of a name are ever read, so a name needs no terminator of its own. */
module Names {
  import opened Common

  const NAME_LEN: nat := 6

  /** The number of characters of `s` the registry looks at, scanning from offset `i`. */
  function KeyLen(s: string, i: nat): (r: nat)
    requires i <= NAME_LEN && i <= |s|
    ensures i <= r <= NAME_LEN && r <= |s|
    ensures forall j :: i <= j < r ==> s[j] != NUL
    ensures r < NAME_LEN ==> At(s, r) == NUL
    decreases NAME_LEN - i
  {
    if i == NAME_LEN || At(s, i) == NUL then i else KeyLen(s, i + 1)
  }

  /** What identifies an object: the characters before the first NUL, six at most. */
  function Key(s: string): (r: string)
    ensures |r| <= NAME_LEN && r <= s
    ensures forall j :: 0 <= j < |r| ==> r[j] != NUL
    ensures |r| < NAME_LEN ==> At(s, |r|) == NUL
  {
    s[..KeyLen(s, 0)]
  }

  /** A prefix with the three properties promised by `Key` can only be `Key(s)`. */
  lemma KeyUnique(s: string, p: string)
    requires |p| <= NAME_LEN && p <= s
    requires forall j :: 0 <= j < |p| ==> p[j] != NUL
    requires |p| < NAME_LEN ==> At(s, |p|) == NUL
    ensures p == Key(s)
  {
    assert forall j :: 0 <= j < |Key(s)| ==> At(s, j) != NUL;
    assert forall j :: 0 <= j < |p| ==> At(s, j) != NUL;
  }

  lemma KeyOfKey(s: string)
    ensures Key(Key(s)) == Key(s)
  {
    KeyUnique(Key(s), Key(s));
  }

  /** `_name_eq`: the registry's comparison is equality of keys. */
  method NameEq(n1: string, n2: string) returns (eq: bool)
    ensures eq <==> Key(n1) == Key(n2)
  {
    var len := 0;
    while len < NAME_LEN && At(n1, len) != NUL && At(n1, len) == At(n2, len)
      invariant len <= NAME_LEN && len <= |n1| && len <= |n2|
      invariant forall j :: 0 <= j < len ==> n1[j] == n2[j] && n1[j] != NUL
    {
      len := len + 1;
    }
    eq := len >= NAME_LEN || (At(n1, len) == NUL && At(n2, len) == NUL);
    if eq {
      assert n1[..len] == n2[..len];
      KeyUnique(n1, n1[..len]);
      KeyUnique(n2, n2[..len]);
    } else {
      assert forall j :: 0 <= j < |Key(n1)| ==> At(n1, j) == Key(n1)[j];
      assert forall j :: 0 <= j < |Key(n2)| ==> At(n2, j) == Key(n2)[j];
      assert forall j :: 0 <= j < len ==> At(n1, j) != NUL;
    }
  }

  /** `_name_cpy`: the copy stored in a slot is exactly the key. */
  method NameCopy(from: string) returns (to: string)
    ensures to == Key(from)
  {
    to := "";
    var i := 0;
    while i < NAME_LEN
      invariant i <= NAME_LEN && i <= |from| && to == from[..i]
      invariant forall j :: 0 <= j < i ==> from[j] != NUL
    {
      if At(from, i) == NUL {
        break;
      }
      to := to + [from[i]];
      i := i + 1;
    }
    KeyUnique(from, to);
  }

  // ---------------------------------------------------------------------------------------
  // Conversion to the name used by the operating system

  predicate IsLower(c: char) { 'a' <= c <= 'z' }

  predicate IsPortable(c: char)
  {
    'A' <= c <= 'Z' || '0' <= c <= '9' || c == '_' || c == '$'
  }

  function Upper(c: char): char
  {
    if IsLower(c) then (c as int - 'a' as int + 'A' as int) as char else c
  }

  /** The number of characters of `s` that survive the conversion, scanning from offset `i`. */
  function OsLen(s: string, i: nat): (r: nat)
    requires i <= NAME_LEN && i <= |s|
    ensures i <= r <= NAME_LEN && r <= |s|
    ensures forall j :: i <= j < r ==> IsLower(s[j]) || IsPortable(s[j])
    ensures r < NAME_LEN ==> !IsLower(At(s, r)) && !IsPortable(At(s, r))
    decreases NAME_LEN - i
  {
    if i == NAME_LEN || !(IsLower(At(s, i)) || IsPortable(At(s, i))) then i else OsLen(s, i + 1)
  }

  /** The operating-system name of `s`; `None` stands for `EINVAL`. */
  function OsName(s: string): Option<string>
  {
    var n := OsLen(s, 0);
    if n == 0 then None else Some("/" + seq(n, i requires 0 <= i < n => Upper(s[i])))
  }

  /** What `urt_convert_name` promises, character by character: capitals, digits, `_` and `$` are
      copied, small letters become capitals, and the conversion ends at the first other character or
      after the sixth. */
  predicate IsConversion(from: string, to: Option<string>)
  {
    && (to.Some? ==> 1 < |to.value| <= 7 && |to.value| - 1 <= |from| && to.value[0] == '/')
    && (to.Some? ==> forall i :: 0 <= i < |to.value| - 1 ==>
          if 'a' <= from[i] <= 'z' then to.value[i + 1] as int == from[i] as int - 32
          else to.value[i + 1] == from[i]
               && ('A' <= from[i] <= 'Z' || '0' <= from[i] <= '9' || from[i] == '_' || from[i] == '$'))
    && var n := if to.Some? then |to.value| - 1 else 0;
       n < 6 ==> var c := At(from, n);
                 !('a' <= c <= 'z' || 'A' <= c <= 'Z' || '0' <= c <= '9' || c == '_' || c == '$')
  }

  lemma OsNameConverts(s: string)
    ensures IsConversion(s, OsName(s))
  {
    var n := OsLen(s, 0);
    if n > 0 {
      forall i | 0 <= i < n ensures OsName(s).value[i + 1] == Upper(s[i]) {}
    }
  }

  /** `urt_convert_name` */
  method ConvertName(from: string) returns (to: Option<string>)
    ensures to == OsName(from) && IsConversion(from, to)
  {
    var buffer := "/";
    var i := 0;
    while i < NAME_LEN
      invariant i <= NAME_LEN && i <= |from|
      invariant OsLen(from, 0) == OsLen(from, i)
      invariant buffer == "/" + seq(i, j requires 0 <= j < i => Upper(from[j]))
    {
      if IsLower(At(from, i)) {
        buffer := buffer + [(from[i] as int - 'a' as int + 'A' as int) as char];
      } else if !IsPortable(At(from, i)) {
        break;
      } else {
        buffer := buffer + [from[i]];
      }
      i := i + 1;
    }
    assert OsLen(from, 0) == i;
    if i == 0 {
      to := None;
    } else {
      to := Some(buffer);
    }
    assert to == OsName(from);
    OsNameConverts(from);
  }

  /** One to six characters, each a capital letter, a digit, `_` or `$`. */
  predicate Canonical(s: string)
  {
    0 < |Key(s)| && forall j :: 0 <= j < |Key(s)| ==> IsPortable(Key(s)[j])
  }

  lemma OsLenOfKey(s: string)
    ensures OsLen(s, 0) <= |Key(s)|
    ensures OsLen(Key(s), 0) == OsLen(s, 0)
  {
    var k, n, m := Key(s), OsLen(s, 0), OsLen(Key(s), 0);
    assert forall j :: 0 <= j < n ==> At(s, j) != NUL;
    assert forall j :: 0 <= j < n ==> At(k, j) == At(s, j);
    assert forall j :: 0 <= j < m ==> At(k, j) == At(s, j);
  }

  /** The operating system sees no more of a name than the registry does. */
  lemma OsNameOfKey(s: string)
    ensures OsName(Key(s)) == OsName(s)
  {
    OsLenOfKey(s);
    var n := OsLen(s, 0);
    if n != 0 {
      assert forall i :: 0 <= i < n ==> Key(s)[i] == s[i];
      assert OsName(Key(s)).value == OsName(s).value;
    }
  }

  /** Canonical names are exactly those converted without loss. */
  lemma CanonicalIffUnchanged(s: string)
    ensures Canonical(s) <==> OsName(s) == Some("/" + Key(s))
  {
    var k, n := Key(s), OsLen(s, 0);
    OsLenOfKey(s);
    if Canonical(s) {
      assert forall j :: 0 <= j < |k| ==> At(s, j) == k[j];
      assert forall i :: 0 <= i < n ==> Upper(s[i]) == k[i];
      assert OsName(s).value == "/" + k;
    }
    if OsName(s) == Some("/" + k) {
      var os := OsName(s).value;
      assert |os| == n + 1 == |k| + 1;
      forall j | 0 <= j < |k| ensures IsPortable(k[j]) {
        assert os[j + 1] == Upper(s[j]) == k[j];
      }
    }
  }

  /** On canonical names the conversion is injective: distinct registry entries have distinct
      operating-system objects. */
  lemma OsNameInjective(a: string, b: string)
    requires Canonical(a) && Canonical(b)
    ensures OsName(a) == OsName(b) <==> Key(a) == Key(b)
  {
    CanonicalIffUnchanged(a);
    CanonicalIffUnchanged(b);
    var x, y := OsName(a).value, OsName(b).value;
    assert x[1..] == Key(a) && y[1..] == Key(b);
  }

  /** The same for names as the registry stores them. */
  lemma StoredNamesInjective(a: string, b: string)
    requires Canonical(a) && Canonical(b) && Key(a) == a && Key(b) == b
    ensures OsName(a).Some?
    ensures OsName(a) == OsName(b) ==> a == b
  {
    CanonicalIffUnchanged(a);
    OsNameInjective(a, b);
  }

  /** Off the canonical names it is not: the registry keeps these pairs apart, the operating
      system does not. */
  lemma OsNameFoldsAndTruncates()
    ensures Key("mem") != Key("MEM") && OsName("mem") == OsName("MEM")
    ensures Key("A.B") != Key("A.C") && OsName("A.B") == OsName("A.C")
  {
    KeyUnique("mem", "mem");
    KeyUnique("MEM", "MEM");
    KeyUnique("A.B", "A.B");
    KeyUnique("A.C", "A.C");
    assert "mem"[0] != "MEM"[0];
    assert "A.B"[2] != "A.C"[2];
    assert OsName("mem").value == "/MEM" == OsName("MEM").value;
    assert OsName("A.B").value == "/A" == OsName("A.C").value;
  }
}
