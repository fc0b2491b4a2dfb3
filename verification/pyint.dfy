/** Python's integer conversions as the miner uses them: `int(s)`,
    `int(s, 16)`, `str(n)` and `hex(n).replace("0x", "")`. */
module PyInt {
  import opened Wrappers
  import opened PyText

  /** Value of a digit character in any base up to 16; 16 for a
      character that is not a digit at all. */
  function DigitValue(c: char): nat
  {
    if '0' <= c <= '9' then c as nat - '0' as nat
    else if 'a' <= c <= 'f' then c as nat - 'a' as nat + 10
    else if 'A' <= c <= 'F' then c as nat - 'A' as nat + 10
    else 16
  }

  predicate IsDigit(c: char, base: nat)
  {
    DigitValue(c) < base
  }

  predicate AllDigits(s: string, base: nat)
  {
    forall i :: 0 <= i < |s| ==> IsDigit(s[i], base)
  }

  /** The lower-case digit character that `str` and `hex` print for `d`. */
  function DigitChar(d: nat): (c: char)
    requires d < 16
    ensures DigitValue(c) == d
    ensures c != '_' && c != '-' && c != '+' && c != 'x' && c !in IntWhitespace
  {
    if d < 10 then ('0' as nat + d) as char else ('a' as nat + d - 10) as char
  }

  /** The two bases the miner converts in: `int(x)` and `int(x, 16)`. The
      arithmetic below names each radix as a literal. */
  type Base = b: nat | b == 10 || b == 16 witness 10

  /** `n // base` and `n % base`. */
  function DivMod(n: nat, base: Base): (r: (nat, nat))
    ensures r.1 < base
    ensures base == 10 ==> r.0 * 10 + r.1 == n
    ensures base == 16 ==> r.0 * 16 + r.1 == n
  {
    if base == 10 then (n / 10, n % 10) else (n / 16, n % 16)
  }

  /** Digits of `n` in `base`, most significant first, no leading zero. */
  function NatDigits(n: nat, base: Base): (s: string)
    ensures |s| > 0 && AllDigits(s, base)
    ensures forall i :: 0 <= i < |s| ==> s[i] != '_' && s[i] != '-' && s[i] != '+' && s[i] != 'x'
    ensures s[0] !in IntWhitespace && s[|s| - 1] !in IntWhitespace
    decreases n
  {
    if n < base then [DigitChar(n)]
    else NatDigits(DivMod(n, base).0, base) + [DigitChar(DivMod(n, base).1)]
  }

  /** The number a digit string denotes in `base`. */
  function DigitsValue(s: string, base: Base): nat
    requires AllDigits(s, base)
  {
    if |s| == 0 then 0
    else
      var high := DigitsValue(s[..|s| - 1], base);
      (if base == 10 then high * 10 else high * 16) + DigitValue(s[|s| - 1])
  }

  lemma {:induction false} DigitsRoundTrip(n: nat, base: Base)
    ensures DigitsValue(NatDigits(n, base), base) == n
    decreases n
  {
    if n >= base {
      var (q, d) := DivMod(n, base);
      var s := NatDigits(q, base);
      DigitsRoundTrip(q, base);
      assert (s + [DigitChar(d)])[..|s|] == s;
    }
  }

  /** A string of decimal digits is worth at least as much read in
      hexadecimal. */
  lemma {:induction false} HexValueAtLeast(s: string)
    requires AllDigits(s, 10)
    ensures AllDigits(s, 16) && DigitsValue(s, 16) >= DigitsValue(s, 10)
  {
    if |s| > 0 {
      HexValueAtLeast(s[..|s| - 1]);
    }
  }

  /** `n` printed in `base`, with a leading `-` when negative. */
  function Render(n: int, base: Base): string
  {
    if n < 0 then "-" + NatDigits(-n, base) else NatDigits(n, base)
  }

  /** Python's `str(n)`. */
  function Decimal(n: int): string
  {
    Render(n, 10)
  }

  /** Python's `hex(n).replace("0x", "")`: lower-case hexadecimal, with a
      leading `-` for negative numbers. */
  function HexKey(n: int): string
  {
    Render(n, 16)
  }

  /** Drops every `_` (Python allows single underscores between digits). */
  function RemoveUnderscores(s: string): (r: string)
    ensures forall i :: 0 <= i < |r| ==> r[i] != '_' && r[i] in s
    ensures '_' !in s ==> r == s
  {
    if |s| == 0 then ""
    else if s[0] == '_' then RemoveUnderscores(s[1..])
    else [s[0]] + RemoveUnderscores(s[1..])
  }

  /** A digit body Python's `int` accepts: digits, with single underscores
      only between two digits. */
  predicate ValidGroups(s: string, base: nat)
  {
    && |s| > 0 && s[0] != '_' && s[|s| - 1] != '_'
    && (forall i :: 0 <= i < |s| ==> s[i] == '_' || IsDigit(s[i], base))
    && (forall i :: 0 <= i < |s| - 1 ==> !DoubleUnderscore(s, i))
  }

  /** Whether an underscore at `i` is followed by another. */
  predicate DoubleUnderscore(s: string, i: nat)
    requires i < |s| - 1
  {
    s[i] == '_' && s[i + 1] == '_'
  }

  lemma GroupsDigits(s: string, base: nat)
    requires ValidGroups(s, base)
    ensures AllDigits(RemoveUnderscores(s), base)
  {
    var r := RemoveUnderscores(s);
    forall i | 0 <= i < |r|
      ensures IsDigit(r[i], base)
    {
      var j :| 0 <= j < |s| && s[j] == r[i];
    }
  }

  /** The value of a digit body; `None` when Python rejects it. */
  function ParseBody(body: string, base: Base): (r: Option<nat>)
    ensures r.Some? <==> ValidGroups(body, base)
  {
    if ValidGroups(body, base) then
      GroupsDigits(body, base);
      Some(DigitsValue(RemoveUnderscores(body), base))
    else None
  }

  /** Removing underscores distributes over concatenation. */
  lemma {:induction false} RemoveUnderscoresAppend(a: string, b: string)
    ensures RemoveUnderscores(a + b) == RemoveUnderscores(a) + RemoveUnderscores(b)
  {
    if |a| > 0 {
      assert (a + b)[0] == a[0] && (a + b)[1..] == a[1..] + b;
      RemoveUnderscoresAppend(a[1..], b);
    } else {
      assert a + b == b;
    }
  }

  /** Underscores between digits do not change the value: two digit
      groups joined by one `_` parse to the same number as the groups run
      together ("1_0" and "10"). */
  lemma UnderscoreBetweenGroups(x: string, y: string, base: Base)
    requires ValidGroups(x, base) && ValidGroups(y, base)
    ensures ParseBody(x + "_" + y, base).Some?
    ensures ParseBody(x + "_" + y, base) == ParseBody(x + y, base)
  {
    var s := x + "_" + y;
    var t := x + y;
    assert ValidGroups(s, base) by {
      assert s[0] == x[0] && s[|s| - 1] == y[|y| - 1];
      forall i | 0 <= i < |s| - 1
        ensures !DoubleUnderscore(s, i)
      {
        if i < |x| {
          assert s[i] == x[i];
          if i < |x| - 1 {
            assert s[i + 1] == x[i + 1] && !DoubleUnderscore(x, i);
          }
        } else if i == |x| {
          assert s[i + 1] == y[0];
        } else {
          assert s[i] == y[i - |x| - 1] && s[i + 1] == y[i - |x|] && !DoubleUnderscore(y, i - |x| - 1);
        }
      }
      forall i | 0 <= i < |s|
        ensures s[i] == '_' || IsDigit(s[i], base)
      {
        if i < |x| {
          assert s[i] == x[i];
        } else if i > |x| {
          assert s[i] == y[i - |x| - 1];
        }
      }
    }
    assert ValidGroups(t, base) by {
      assert t[0] == x[0] && t[|t| - 1] == y[|y| - 1];
      forall i | 0 <= i < |t| - 1
        ensures !DoubleUnderscore(t, i)
      {
        if i < |x| {
          assert t[i] == x[i];
          if i < |x| - 1 {
            assert t[i + 1] == x[i + 1] && !DoubleUnderscore(x, i);
          }
        } else {
          assert t[i] == y[i - |x|] && t[i + 1] == y[i - |x| + 1] && !DoubleUnderscore(y, i - |x|);
        }
      }
      forall i | 0 <= i < |t|
        ensures t[i] == '_' || IsDigit(t[i], base)
      {
        if i < |x| {
          assert t[i] == x[i];
        } else {
          assert t[i] == y[i - |x|];
        }
      }
    }
    RemoveUnderscoresAppend(x + "_", y);
    RemoveUnderscoresAppend(x, "_");
    RemoveUnderscoresAppend(x, y);
    assert RemoveUnderscores("_") == "";
    assert RemoveUnderscores(x) + "" == RemoveUnderscores(x);
  }

  /** An unsigned number: for base 16 an optional `0x`/`0X` prefix (which
      may be followed by one `_`), then the digit body. */
  function ParseUnsigned(u: string, base: Base): Option<nat>
  {
    if base == 16 && |u| >= 2 && u[0] == '0' && (u[1] == 'x' || u[1] == 'X') then
      var d := u[2..];
      ParseBody(if |d| > 0 && d[0] == '_' then d[1..] else d, base)
    else ParseBody(u, base)
  }

  /** The characters `int` skips around a number: ASCII space, tab, line
      feed, vertical tab, form feed and carriage return. Unlike `strip()`,
      it keeps the separators `\x1c` to `\x1f`. */
  const IntWhitespace: set<char> := {' ', '\t', '\n', '\U{0B}', '\U{0C}', '\r'}

  /** Python's `int(s, base)` for base 10 and 16: surrounding whitespace,
      an optional sign, then an unsigned number. `None` is the ValueError
      Python raises. */
  function ParseInt(s: string, base: Base): (r: Option<int>)
    ensures Trim(s, IntWhitespace) == "" ==> r == None
  {
    ParseSigned(Trim(s, IntWhitespace), base)
  }

  /** `int` of text already stripped of whitespace: an optional sign, then
      an unsigned number. */
  function ParseSigned(t: string, base: Base): Option<int>
  {
    if |t| == 0 then None
    else if t[0] == '-' || t[0] == '+' then
      match ParseUnsigned(t[1..], base)
      case None => None
      case Some(v) => Some(if t[0] == '-' then -(v as int) else v as int)
    else
      match ParseUnsigned(t, base)
      case None => None
      case Some(v) => Some(v)
  }

  /** Text with no whitespace at either end is parsed as it stands. */
  lemma StrippedParse(s: string, base: Base)
    requires |s| > 0 && s[0] !in IntWhitespace && s[|s| - 1] !in IntWhitespace
    ensures ParseInt(s, base) == ParseSigned(s, base)
  {
    TrimUntouched(s, IntWhitespace);
  }

  /** `int` refuses a number followed or preceded by one of the separators
      `\x1c` to `\x1f`, although `strip()` would remove that separator. */
  lemma SeparatorNotSkipped(s: string, c: char, base: Base)
    requires c in Whitespace - IntWhitespace
    ensures Strip([c]) == ""
    ensures ParseInt(s + [c], base) == None
    ensures ParseInt([c] + s, base) == None
  {
    TrailingSeparator(s, c, base);
    LeadingSeparator(s, c, base);
  }

  lemma TrailingSeparator(s: string, c: char, base: Base)
    requires c in Whitespace - IntWhitespace
    ensures ParseInt(s + [c], base) == None
  {
    var u := s + [c];
    var l := TrimLeft(u, IntWhitespace);
    assert u[|u| - 1] == c;
    if |l| == 0 {
      assert false;
    }
    assert l[|l| - 1] == c;
    assert Trim(u, IntWhitespace) == l by {
      TrimUntouched(l, IntWhitespace);
    }
    var r := if l[0] == '-' || l[0] == '+' then l[1..] else l;
    assert r == [] || r[|r| - 1] == c;
    NonDigitEnd(r, c, base);
  }

  lemma LeadingSeparator(s: string, c: char, base: Base)
    requires c in Whitespace - IntWhitespace
    ensures ParseInt([c] + s, base) == None
  {
    var v := [c] + s;
    assert TrimLeft(v, IntWhitespace) == v;
    var r := TrimRight(v, IntWhitespace);
    assert |r| > 0 && r[0] == c;
    NonDigitStart(r, c, base);
  }

  /** Text that starts with a character that is neither a digit, a sign
      nor `_` is no integer. */
  lemma NonDigitStart(t: string, c: char, base: Base)
    requires c in Whitespace - IntWhitespace
    requires |t| > 0 && t[0] == c
    ensures ParseSigned(t, base) == None
  {
    assert DigitValue(c) == 16 && c != '_' && c != '0' && c != '-' && c != '+';
    assert !ValidGroups(t, base) by {
      assert !IsDigit(t[0], base);
    }
  }

  /** Text that is empty or ends in a character that is neither a digit nor
      `_` is no unsigned number, whatever prefix it starts with. */
  lemma NonDigitEnd(u: string, c: char, base: Base)
    requires c in Whitespace - IntWhitespace
    requires u == [] || u[|u| - 1] == c
    ensures ParseUnsigned(u, base) == None
  {
    assert DigitValue(c) == 16;
    forall x: string | x == [] || x[|x| - 1] == c
      ensures ParseBody(x, base) == None
    {
      if x != [] {
        assert !IsDigit(x[|x| - 1], base);
      }
    }
    if base == 16 && |u| >= 2 && u[0] == '0' && (u[1] == 'x' || u[1] == 'X') {
      var d := u[2..];
      if |d| > 0 && d[0] == '_' {
        assert d[1..] == [] || d[1..][|d| - 2] == c;
      }
    }
  }

  /** A printed natural number parses back to itself. */
  lemma UnsignedRoundTrip(m: nat, base: Base)
    ensures ParseUnsigned(NatDigits(m, base), base) == Some(m)
  {
    var ds := NatDigits(m, base);
    PlainDigitsUnsigned(ds, base);
    PlainDigitsBody(ds, base);
    DigitsRoundTrip(m, base);
  }

  /** Digits without a `0x` prefix are parsed as the body itself. */
  lemma PlainDigitsUnsigned(ds: string, base: Base)
    requires AllDigits(ds, base)
    ensures ParseUnsigned(ds, base) == ParseBody(ds, base)
  {
    if |ds| >= 2 {
      assert IsDigit(ds[1], base);
    }
  }

  /** A non-empty run of digits is a valid body worth its digits' value. */
  lemma PlainDigitsBody(ds: string, base: Base)
    requires |ds| > 0 && AllDigits(ds, base)
    requires forall i :: 0 <= i < |ds| ==> ds[i] != '_'
    ensures ParseBody(ds, base) == Some(DigitsValue(ds, base))
  {
    assert '_' !in ds;
    assert ValidGroups(ds, base);
  }

  lemma NegativeRoundTrip(m: nat, base: Base)
    requires m > 0
    ensures ParseInt("-" + NatDigits(m, base), base) == Some(-(m as int))
  {
    var ds := NatDigits(m, base);
    var s := "-" + ds;
    assert ParseInt(s, base) == ParseSigned(s, base) by {
      assert s[0] == '-' && s[|s| - 1] == ds[|ds| - 1];
      StrippedParse(s, base);
    }
    UnsignedRoundTrip(m, base);
    MinusSign(ds, base, m);
  }

  /** A minus sign before an unsigned number negates it. */
  lemma MinusSign(u: string, base: Base, v: nat)
    requires ParseUnsigned(u, base) == Some(v)
    ensures ParseSigned("-" + u, base) == Some(-(v as int))
  {
    assert ("-" + u)[1..] == u;
  }

  lemma NonNegativeRoundTrip(m: nat, base: Base)
    ensures ParseInt(NatDigits(m, base), base) == Some(m)
  {
    var ds := NatDigits(m, base);
    assert ParseInt(ds, base) == ParseSigned(ds, base) by {
      StrippedParse(ds, base);
    }
    assert ParseSigned(ds, base) == Some(m) by {
      UnsignedRoundTrip(m, base);
      assert ds[0] != '-' && ds[0] != '+';
    }
  }

  /** Equal texts parse alike. */
  lemma SameParse(a: string, b: string, base: Base)
    requires a == b
    ensures ParseInt(a, base) == ParseInt(b, base)
  {
  }

  /** A rendered integer parses back to itself in the same base. */
  lemma RenderRoundTrip(n: int, base: Base)
    ensures ParseInt(Render(n, base), base) == Some(n)
  {
    if n < 0 {
      NegativeRendered(n, base);
    } else {
      SameParse(Render(n, base), NatDigits(n, base), base);
      NonNegativeRoundTrip(n, base);
    }
  }

  lemma NegativeRendered(n: int, base: Base)
    requires n < 0
    ensures ParseInt(Render(n, base), base) == Some(n)
  {
    var m: nat := -n;
    var t := "-" + NatDigits(m, base);
    assert Render(n, base) == t;
    NegativeRoundTrip(m, base);
    SameParse(Render(n, base), t, base);
  }

  /** `int(str(n)) == n`. */
  lemma DecimalRoundTrip(n: int)
    ensures ParseInt(Decimal(n), 10) == Some(n)
  {
    RenderRoundTrip(n, 10);
  }

  /** `int(hex(n).replace("0x", ""), 16) == n`: the buffer key of an
      address denotes that address. */
  lemma HexKeyRoundTrip(n: int)
    ensures ParseInt(HexKey(n), 16) == Some(n)
  {
    RenderRoundTrip(n, 16);
  }

  /** Distinct addresses have distinct buffer keys. */
  lemma HexKeyInjective(a: int, b: int)
    ensures HexKey(a) == HexKey(b) <==> a == b
  {
    HexKeyRoundTrip(a);
    HexKeyRoundTrip(b);
  }

  /** Distinct numbers print differently. */
  lemma DecimalInjective(a: int, b: int)
    ensures Decimal(a) == Decimal(b) <==> a == b
  {
    DecimalRoundTrip(a);
    DecimalRoundTrip(b);
  }

  /** `str(n)` never contains the field or bus separators. */
  lemma DecimalAlphabet(n: int)
    ensures ',' !in Decimal(n) && ':' !in Decimal(n) && '$' !in Decimal(n) && '\n' !in Decimal(n)
  {
    var ds := NatDigits(if n < 0 then -n else n, 10);
    assert Decimal(n) == ds || Decimal(n) == "-" + ds;
    forall i | 0 <= i < |ds|
      ensures ds[i] != ',' && ds[i] != ':' && ds[i] != '$' && ds[i] != '\n'
    {
      assert IsDigit(ds[i], 10);
    }
  }

  /** `str(n)` of a non-negative number is all ASCII digits. */
  lemma DecimalIsAlnum(n: int)
    requires n >= 0
    ensures IsAlnum(Decimal(n))
  {
    var ds := NatDigits(n, 10);
    forall i | 0 <= i < |ds|
      ensures IsAlnumChar(ds[i])
    {
      assert IsDigit(ds[i], 10);
    }
  }
}
