/**
 * The string operations the repositories use: `ToLower`, `Contains`, `Trim`, `Split`,
 * `int.ToString` and `int.TryParse`. Strings are sequences of UTF-16 code units (`char`).
 */
module Text {
  import opened Wrappers

  /** `char.ToLower` on the ASCII letters; every other character is left as it is. */
  function LowerChar(c: char): char
  {
    if 'A' <= c <= 'Z' then (c as int + 32) as char else c
  }

  /** `string.ToLower()`, character by character. */
  function Lower(s: string): (r: string)
    ensures |r| == |s| && forall i :: 0 <= i < |s| ==> r[i] == LowerChar(s[i])
  {
    seq(|s|, i requires 0 <= i < |s| => LowerChar(s[i]))
  }

  /** Lower-casing twice is lower-casing once. */
  lemma LowerIdempotent(s: string)
    ensures Lower(Lower(s)) == Lower(s)
  {
  }

  /** `s.Contains(sub)`: `sub` occurs in `s` as a contiguous piece. */
  predicate Contains(s: string, sub: string)
    decreases |s|
  {
    sub <= s || (s != [] && Contains(s[1..], sub))
  }

  /** A copy of `sub` starts at position `i` of `s`. */
  predicate OccursAt(s: string, sub: string, i: int)
  {
    0 <= i && i + |sub| <= |s| && s[i..i + |sub|] == sub
  }

  /** A copy at position 0 is a prefix. */
  lemma OccursAtZero(s: string, sub: string)
    ensures OccursAt(s, sub, 0) <==> sub <= s
  {
    if |sub| <= |s| {
      assert s[0..|sub|] == s[..|sub|];
    }
  }

  /** A copy at position i + 1 of s is a copy at position i of its tail. */
  lemma OccursAtTail(s: string, sub: string, i: nat)
    requires s != []
    ensures OccursAt(s, sub, i + 1) <==> OccursAt(s[1..], sub, i)
  {
    if i + 1 + |sub| <= |s| {
      assert s[1..][i..i + |sub|] == s[i + 1..i + 1 + |sub|];
    }
  }

  /** `Contains` holds exactly when some position of `s` starts a copy of `sub`. */
  lemma {:induction false} ContainsAt(s: string, sub: string)
    ensures Contains(s, sub) <==> exists i :: OccursAt(s, sub, i)
    decreases |s|
  {
    OccursAtZero(s, sub);
    if sub <= s {
      assert OccursAt(s, sub, 0);
    } else if s != [] {
      ContainsAt(s[1..], sub);
      if exists i :: OccursAt(s, sub, i) {
        var i :| OccursAt(s, sub, i);
        OccursAtTail(s, sub, i - 1);
      }
      if exists i :: OccursAt(s[1..], sub, i) {
        var i :| OccursAt(s[1..], sub, i);
        OccursAtTail(s, sub, i);
      }
    }
  }

  /** A case-insensitive containment test, as `a.ToLower().Contains(b.ToLower())`. */
  predicate ContainsIgnoreCase(s: string, sub: string)
  {
    Contains(Lower(s), Lower(sub))
  }

  /** The empty search term is contained in every string. */
  lemma ContainsEmpty(s: string)
    ensures Contains(s, "")
  {
  }

  /** `"a".IsCaseInsensitiveEqual(b)`: equal after lower-casing both; false against null. */
  predicate EqualsIgnoreCase(a: string, b: Option<string>)
  {
    b.Some? && Lower(a) == Lower(b.value)
  }

  /** `char.IsWhiteSpace`: the Unicode space separators, line and paragraph separators and the control whitespace. */
  predicate IsWhiteSpace(c: char)
  {
    var n := c as int;
    (9 <= n <= 13) || n == 0x20 || n == 0x85 || n == 0xA0 || n == 0x1680
    || (0x2000 <= n <= 0x200A) || n == 0x2028 || n == 0x2029 || n == 0x202F
    || n == 0x205F || n == 0x3000
  }

  /** `s.TrimStart()`. */
  function TrimStart(s: string): (r: string)
    ensures |r| <= |s| && r == s[|s| - |r|..]
    ensures r != [] ==> !IsWhiteSpace(r[0])
    ensures forall i :: 0 <= i < |s| - |r| ==> IsWhiteSpace(s[i])
  {
    if s != [] && IsWhiteSpace(s[0]) then TrimStart(s[1..]) else s
  }

  /** `s.TrimEnd()`. */
  function TrimEnd(s: string): (r: string)
    ensures |r| <= |s| && r == s[..|r|]
    ensures r != [] ==> !IsWhiteSpace(r[|r| - 1])
    ensures forall i :: |r| <= i < |s| ==> IsWhiteSpace(s[i])
  {
    if s != [] && IsWhiteSpace(s[|s| - 1]) then TrimEnd(s[..|s| - 1]) else s
  }

  /** `s.Trim()`. */
  function Trim(s: string): string
  {
    TrimStart(TrimEnd(s))
  }

  /**
   * `name != null && name.Trim().Length > 0`: the test every repository applies before
   * filtering by a name.
   */
  predicate NonBlank(name: Option<string>)
  {
    name.Some? && |Trim(name.value)| > 0
  }

  /** A name is non-blank exactly when it holds a character that is not white space. */
  lemma NonBlankIff(name: Option<string>)
    ensures NonBlank(name) <==> name.Some? && exists i :: 0 <= i < |name.value| && !IsWhiteSpace(name.value[i])
  {
    if name.Some? {
      var s := name.value;
      var e := TrimEnd(s);
      var t := TrimStart(e);
      if |t| > 0 {
        var k := |e| - |t|;
        assert e[k] == t[0];
        assert s[k] == e[k];
      }
      if exists i :: 0 <= i < |s| && !IsWhiteSpace(s[i]) {
        var i :| 0 <= i < |s| && !IsWhiteSpace(s[i]);
        assert i < |e|;
        assert e[i] == s[i];
        assert |t| > 0;
      }
    }
  }

  /** The position of the first `c` in `s`. */
  function IndexOf(s: string, c: char): (i: nat)
    requires c in s
    ensures i < |s| && s[i] == c && c !in s[..i]
  {
    if s[0] == c then 0 else 1 + IndexOf(s[1..], c)
  }

  /** `s.Split(sep)`: the pieces between separators, empty pieces included. */
  function Split(s: string, sep: char): (r: seq<string>)
    ensures |r| >= 1
    ensures forall k :: 0 <= k < |r| ==> sep !in r[k]
    decreases |s|
  {
    if sep !in s then [s]
    else
      var i := IndexOf(s, sep);
      [s[..i]] + Split(s[i + 1..], sep)
  }

  /** `string.Join(sep, parts)`. */
  function Join(parts: seq<string>, sep: char): string
  {
    if parts == [] then ""
    else if |parts| == 1 then parts[0]
    else parts[0] + [sep] + Join(parts[1..], sep)
  }

  /** Joining a first part onto a non-empty rest puts one separator between them. */
  lemma JoinCons(p: string, rest: seq<string>, sep: char)
    requires rest != []
    ensures Join([p] + rest, sep) == p + [sep] + Join(rest, sep)
  {
    assert ([p] + rest)[0] == p && ([p] + rest)[1..] == rest;
  }

  /** Splitting loses nothing: joining the pieces back gives the original string. */
  lemma {:induction false} JoinSplit(s: string, sep: char)
    ensures Join(Split(s, sep), sep) == s
    decreases |s|
  {
    if sep in s {
      var i := IndexOf(s, sep);
      var rest := Split(s[i + 1..], sep);
      assert Split(s, sep) == [s[..i]] + rest;
      JoinCons(s[..i], rest, sep);
      JoinSplit(s[i + 1..], sep);
      assert s == s[..i] + [sep] + s[i + 1..];
    }
  }

  /** A string without the separator is one piece. */
  lemma SplitNoSeparator(s: string, sep: char)
    requires sep !in s
    ensures Split(s, sep) == [s]
  {
  }

  /** The ASCII decimal digit of a value `0 <= d < 10`. */
  function DigitChar(d: int): (c: char)
    requires 0 <= d < 10
    ensures '0' <= c <= '9'
  {
    ('0' as int + d) as char
  }

  /** `n.ToString()` for a non-negative integer: its decimal digits, no leading zeros. */
  function NatToString(n: nat): (s: string)
    ensures |s| >= 1 && forall i :: 0 <= i < |s| ==> '0' <= s[i] <= '9'
  {
    if n < 10 then [DigitChar(n)] else NatToString(n / 10) + [DigitChar(n % 10)]
  }

  /** `n.ToString()` in the invariant culture. */
  function IntToString(n: int): (s: string)
    ensures |s| >= 1
  {
    if n < 0 then "-" + NatToString(-n) else NatToString(n)
  }

  /** The white space `int.TryParse` skips around a number (NumberStyles.Integer). */
  predicate IsParseWhite(c: char)
  {
    var n := c as int;
    (9 <= n <= 13) || n == 0x20
  }

  function StripParseWhite(s: string): (r: string)
    ensures |r| <= |s|
  {
    if s != [] && IsParseWhite(s[0]) then StripParseWhite(s[1..])
    else if s != [] && IsParseWhite(s[|s| - 1]) then StripParseWhite(s[..|s| - 1])
    else s
  }

  /**
   * The run of NUL characters `int.TryParse` accepts at the very end of its input, after any
   * trailing white space: what is left ends in something other than NUL, and everything cut
   * off is NUL.
   */
  function StripTrailingNul(s: string): (r: string)
    ensures |r| <= |s| && r == s[..|r|]
    ensures forall i :: |r| <= i < |s| ==> s[i] == '\0'
    ensures r == [] || r[|r| - 1] != '\0'
  {
    if s != [] && s[|s| - 1] == '\0' then StripTrailingNul(s[..|s| - 1]) else s
  }

  predicate AllDigits(s: string)
  {
    forall i :: 0 <= i < |s| ==> '0' <= s[i] <= '9'
  }

  /** The value of a string of decimal digits, most significant first. */
  function DigitsValue(s: string): (v: nat)
    requires AllDigits(s)
  {
    if s == [] then 0 else DigitsValue(s[..|s| - 1]) * 10 + (s[|s| - 1] as int - '0' as int)
  }

  const Int32Min: int := -0x8000_0000
  const Int32Max: int := 0x7FFF_FFFF

  /**
   * The number itself once the white space and NULs around it are gone: an optional `+` or
   * `-`, one or more decimal digits, and a value that fits in 32 bits.
   */
  function ParseSigned(t: string): (r: Option<int>)
    ensures r.Some? ==> Int32Min <= r.value <= Int32Max
  {
    var neg := t != [] && t[0] == '-';
    var body := if t != [] && (t[0] == '-' || t[0] == '+') then t[1..] else t;
    if body == [] || !AllDigits(body) then None
    else
      var v: int := if neg then -(DigitsValue(body) as int) else DigitsValue(body);
      if Int32Min <= v <= Int32Max then Some(v) else None
  }

  /**
   * `int.TryParse(s, out code)`: optional surrounding white space, an optional `+` or `-`,
   * one or more decimal digits, and a value that fits in 32 bits; a run of NUL characters may
   * end the input. `None` is the `false` result; a null string fails.
   */
  function TryParseInt(s: Option<string>): (r: Option<int>)
    ensures r.Some? ==> Int32Min <= r.value <= Int32Max
  {
    if s.None? then None else ParseSigned(StripParseWhite(StripTrailingNul(s.value)))
  }

  lemma {:induction false} DigitsValueOfNatToString(n: nat)
    ensures DigitsValue(NatToString(n)) == n
  {
    if n >= 10 {
      DigitsValueOfNatToString(n / 10);
      var s := NatToString(n);
      assert s[..|s| - 1] == NatToString(n / 10);
    }
  }

  /** A number that starts with a digit or a minus sign and ends with a digit has nothing to strip. */
  lemma StripNumber(s: string)
    requires s != [] && (s[0] == '-' || '0' <= s[0] <= '9') && '0' <= s[|s| - 1] <= '9'
    ensures StripParseWhite(StripTrailingNul(s)) == s
  {
  }

  /** One more NUL at the end of the input never changes what `int.TryParse` gives. */
  lemma TrailingNulIgnored(s: string)
    ensures TryParseInt(Some(s + "\0")) == TryParseInt(Some(s))
  {
    assert (s + "\0")[..|s|] == s;
  }

  /** The digits of a non-negative 32-bit value followed by a NUL still parse to it. */
  lemma ParseWithTrailingNul(n: nat)
    requires n <= Int32Max
    ensures TryParseInt(Some(NatToString(n) + "\0")) == Some(n)
  {
    TrailingNulIgnored(NatToString(n));
    ParseNatToString(n);
  }

  /** The digits of a non-negative 32-bit value parse back to it. */
  lemma ParseNatToString(n: nat)
    requires n <= Int32Max
    ensures TryParseInt(Some(NatToString(n))) == Some(n)
  {
    var d := NatToString(n);
    DigitsValueOfNatToString(n);
    StripNumber(d);
  }

  /** A minus sign before digits worth `m`, at most 2^31, parses to `-m`. */
  lemma ParseNegDigits(d: string, m: nat)
    requires d != [] && AllDigits(d) && DigitsValue(d) == m && m <= -Int32Min
    ensures TryParseInt(Some("-" + d)) == Some(-(m as int))
  {
    var s := "-" + d;
    assert s[0] == '-' && s[1..] == d && s[|s| - 1] == d[|d| - 1];
    StripNumber(s);
  }

  /** A minus sign before the digits of a magnitude up to 2^31 parses to the negative value. */
  lemma ParseNegToString(m: nat)
    requires 0 < m <= -Int32Min
    ensures TryParseInt(Some("-" + NatToString(m))) == Some(-(m as int))
  {
    DigitsValueOfNatToString(m);
    ParseNegDigits(NatToString(m), m);
  }

  /** Round trip: a 32-bit integer printed by `ToString` parses back to itself. */
  lemma ParseIntToString(n: int)
    requires Int32Min <= n <= Int32Max
    ensures TryParseInt(Some(IntToString(n))) == Some(n)
  {
    if n < 0 {
      ParseNegToString(-n);
    } else {
      ParseNatToString(n);
    }
  }
}
