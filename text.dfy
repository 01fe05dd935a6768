/**
 * String helpers the report is built from: decimal numerals (Python's `%d`
 * and its zero-padded form), `str.join`, `str.split` with a one-character
 * separator, `str.strip`, `os.path.basename`, and the ordering Python uses
 * when it sorts strings.
 */
module Text {

  datatype Option<T> = None | Some(value: T)

  predicate IsDigit(c: char) {
    '0' <= c <= '9'
  }

  predicate AllDigits(s: string) {
    forall i :: 0 <= i < |s| ==> IsDigit(s[i])
  }

  function DigitChar(d: nat): (c: char)
    requires d < 10
    ensures IsDigit(c) && c as int - '0' as int == d
  {
    ('0' as int + d) as char
  }

  /** The decimal numeral of `n`, as Python's `'%d' % n` writes it. */
  function NatToString(n: nat): (r: string)
    ensures r != [] && AllDigits(r)
    ensures r[0] == '0' ==> r == "0"
    decreases n
  {
    if n < 10 then [DigitChar(n)] else NatToString(n / 10) + [DigitChar(n % 10)]
  }

  /** The value of a string of decimal digits (leading zeros allowed). */
  function ParseDecimal(s: string): nat
    requires AllDigits(s)
  {
    if s == [] then 0
    else ParseDecimal(s[..|s| - 1]) * 10 + (s[|s| - 1] as int - '0' as int)
  }

  /** Reading a numeral back gives the number it was written from. */
  lemma {:induction false} ParseNatToString(n: nat)
    ensures ParseDecimal(NatToString(n)) == n
    decreases n
  {
    if n >= 10 {
      var s := NatToString(n);
      assert s[..|s| - 1] == NatToString(n / 10);
      ParseNatToString(n / 10);
    }
  }

  /** The numeral of `i`, with a leading `-` when it is negative. */
  function IntToString(i: int): (r: string)
    ensures r != []
  {
    if i < 0 then "-" + NatToString(-i) else NatToString(i)
  }

  /** The integer a numeral with an optional leading `-` stands for; `None` for anything else. */
  function ParseInt(s: string): (r: Option<int>)
    ensures r.Some? <==> (s != [] && AllDigits(s)) || (|s| > 1 && s[0] == '-' && AllDigits(s[1..]))
  {
    if s != [] && AllDigits(s) then Some(ParseDecimal(s))
    else if |s| > 1 && s[0] == '-' && AllDigits(s[1..]) then
      var magnitude: int := ParseDecimal(s[1..]);
      Some(-magnitude)
    else None
  }

  /** Reading an integer's numeral back gives the integer. */
  lemma ParseIntToString(i: int)
    ensures ParseInt(IntToString(i)) == Some(i)
  {
    if i < 0 {
      var s := IntToString(i);
      assert s[1..] == NatToString(-i);
      ParseNatToString(-i);
    } else {
      ParseNatToString(i);
    }
  }

  /** Leading zeros do not change the value of a numeral. */
  lemma {:induction false} ParseLeadingZero(s: string)
    requires AllDigits(s)
    ensures AllDigits("0" + s) && ParseDecimal("0" + s) == ParseDecimal(s)
    decreases |s|
  {
    if s != [] {
      assert ("0" + s)[..|s|] == "0" + s[..|s| - 1];
      ParseLeadingZero(s[..|s| - 1]);
    }
  }

  function Repeat(c: char, n: nat): (r: string)
    ensures |r| == n && forall i :: 0 <= i < n ==> r[i] == c
  {
    if n == 0 then [] else Repeat(c, n - 1) + [c]
  }

  /** `'%0Wd' % n`: the numeral of `n`, padded on the left with zeros to `width` characters. */
  function ZeroPad(n: nat, width: nat): (r: string)
    ensures AllDigits(r)
    ensures |r| == if |NatToString(n)| < width then width else |NatToString(n)|
  {
    var digits := NatToString(n);
    if |digits| < width then Repeat('0', width - |digits|) + digits else digits
  }

  lemma {:induction false} ParseLeadingZeros(k: nat, s: string)
    requires AllDigits(s)
    ensures AllDigits(Repeat('0', k) + s) && ParseDecimal(Repeat('0', k) + s) == ParseDecimal(s)
    decreases k
  {
    if k > 0 {
      var z := Repeat('0', k - 1);
      assert Repeat('0', k) == "0" + z;
      assert Repeat('0', k) + s == "0" + (z + s);
      ParseLeadingZeros(k - 1, s);
      ParseLeadingZero(z + s);
    } else {
      assert Repeat('0', k) + s == s;
    }
  }

  /** A zero-padded numeral still reads back as the number it was written from. */
  lemma ParseZeroPad(n: nat, width: nat)
    ensures ParseDecimal(ZeroPad(n, width)) == n
  {
    var digits := NatToString(n);
    ParseNatToString(n);
    if |digits| < width {
      ParseLeadingZeros(width - |digits|, digits);
    }
  }

  /** `sep.join(parts)`. */
  function Join(parts: seq<string>, sep: string): string
  {
    if |parts| == 0 then []
    else if |parts| == 1 then parts[0]
    else parts[0] + sep + Join(parts[1..], sep)
  }

  /** Extending the last piece extends the join by the same text. */
  lemma {:induction false} JoinExtendLast(parts: seq<string>, sep: string, w: string)
    requires |parts| >= 1
    ensures Join(parts[..|parts| - 1] + [parts[|parts| - 1] + w], sep) == Join(parts, sep) + w
    decreases |parts|
  {
    var extended := parts[..|parts| - 1] + [parts[|parts| - 1] + w];
    if |parts| > 1 {
      JoinExtendLast(parts[1..], sep, w);
      assert extended[1..] == parts[1..][..|parts[1..]| - 1] + [parts[1..][|parts[1..]| - 1] + w];
    }
  }

  /** Pieces that agree but for `w` at the end of the last are the other pieces with `w` appended to the last. */
  lemma ExtendLastEq(a: seq<string>, b: seq<string>, n: nat, w: string)
    requires |a| == |b| == n >= 1 && forall i :: 0 <= i < n - 1 ==> a[i] == b[i]
    requires a[n - 1] == b[n - 1] + w
    ensures a == b[..n - 1] + [b[n - 1] + w]
  {
  }

  /** `s.split(c)` for a one-character separator: the pieces between occurrences of `c`. */
  function Split(s: string, c: char): (r: seq<string>)
    ensures |r| >= 1
    ensures forall i :: 0 <= i < |r| ==> c !in r[i]
  {
    if s == [] then [[]]
    else if s[0] == c then [[]] + Split(s[1..], c)
    else
      var rest := Split(s[1..], c);
      [[s[0]] + rest[0]] + rest[1..]
  }

  lemma {:induction false} SplitNoSeparator(a: string, c: char)
    requires c !in a
    ensures Split(a, c) == [a]
    decreases |a|
  {
    if a != [] {
      SplitNoSeparator(a[1..], c);
      assert [a[0]] + a[1..] == a;
    }
  }

  lemma {:induction false} SplitAfterPiece(a: string, c: char, b: string)
    requires c !in a
    ensures Split(a + [c] + b, c) == [a] + Split(b, c)
    decreases |a|
  {
    if a == [] {
      assert (a + [c] + b)[1..] == b;
    } else {
      assert (a + [c] + b)[1..] == a[1..] + [c] + b;
      SplitAfterPiece(a[1..], c, b);
      assert [a[0]] + a[1..] == a;
    }
  }

  /** Splitting a join of separator-free pieces gives back the pieces. */
  lemma {:induction false} SplitJoin(parts: seq<string>, c: char)
    requires |parts| >= 1
    requires forall i :: 0 <= i < |parts| ==> c !in parts[i]
    ensures Split(Join(parts, [c]), c) == parts
    decreases |parts|
  {
    if |parts| == 1 {
      SplitNoSeparator(parts[0], c);
    } else {
      SplitJoin(parts[1..], c);
      SplitAfterPiece(parts[0], c, Join(parts[1..], [c]));
      assert [parts[0]] + parts[1..] == parts;
    }
  }

  /**
   * `", ".join(parts)` split at the commas gives the parts back, each but the
   * first with the space of the separator in front.
   */
  lemma {:induction false} SplitJoinCommaSpace(parts: seq<string>)
    requires |parts| >= 1 && forall i :: 0 <= i < |parts| ==> ',' !in parts[i]
    ensures var pieces := Split(Join(parts, ", "), ',');
      && |pieces| == |parts| && pieces[0] == parts[0]
      && forall i :: 1 <= i < |parts| ==> pieces[i] == " " + parts[i]
    decreases |parts|
  {
    if |parts| == 1 {
      SplitNoSeparator(parts[0], ',');
    } else {
      var rest := Join(parts[1..], ", ");
      SplitJoinCommaSpace(parts[1..]);
      assert Join(parts, ", ") == parts[0] + ", " + rest;
      assert parts[0] + ", " + rest == parts[0] + [','] + (" " + rest);
      SplitAfterPiece(parts[0], ',', " " + rest);
      assert (" " + rest)[1..] == rest;
    }
  }

  /** The characters Python 2's `str.strip()` removes. */
  predicate IsSpace(c: char) {
    c == ' ' || c == '\t' || c == '\n' || c == '\r' || c == '\U{B}' || c == '\U{C}'
  }

  function StripLeft(s: string): (r: string)
    ensures |r| <= |s| && r == s[|s| - |r|..]
    ensures forall i :: 0 <= i < |s| - |r| ==> IsSpace(s[i])
    ensures r == [] || !IsSpace(r[0])
  {
    if s != [] && IsSpace(s[0]) then StripLeft(s[1..]) else s
  }

  function StripRight(s: string): (r: string)
    ensures |r| <= |s| && r == s[..|r|]
    ensures forall i :: |r| <= i < |s| ==> IsSpace(s[i])
    ensures r == [] || !IsSpace(r[|r| - 1])
  {
    if s != [] && IsSpace(s[|s| - 1]) then StripRight(s[..|s| - 1]) else s
  }

  /** Whitespace after a string that does not end in whitespace is exactly what `StripRight` removes. */
  lemma {:induction false} StripRightOver(b: string, t: string)
    requires b == [] || !IsSpace(b[|b| - 1])
    requires forall i :: 0 <= i < |t| ==> IsSpace(t[i])
    ensures StripRight(b + t) == b
    decreases |t|
  {
    if t == [] {
      assert b + t == b;
    } else {
      assert (b + t)[..|b + t| - 1] == b + t[..|t| - 1];
      StripRightOver(b, t[..|t| - 1]);
    }
  }

  /** `s.strip()`: `s` without its leading and trailing whitespace. */
  function Strip(s: string): string
  {
    StripRight(StripLeft(s))
  }

  /** What `StripRight` removes is whitespace, and the string is what it keeps followed by that. */
  lemma TrailingSpace(s: string)
    ensures var w := s[|StripRight(s)|..];
      s == StripRight(s) + w && forall i :: 0 <= i < |w| ==> IsSpace(w[i])
  {
    var r := StripRight(s);
    assert s == s[..|r|] + s[|r|..];
  }

  /** A line-terminated text padded with whitespace strips back to its body. */
  lemma StripPadded(body: string, w: string)
    requires body != [] && !IsSpace(body[0]) && !IsSpace(body[|body| - 1])
    requires forall i :: 0 <= i < |w| ==> IsSpace(w[i])
    ensures Strip(body + w + "\n") == body
  {
    var text := body + w + "\n";
    assert text == body + (w + "\n");
    assert StripLeft(text) == text;
    StripRightOver(body, w + "\n");
  }

  /** `os.path.basename(p)`: what follows the last `/` of `p` (all of `p` when it has none). */
  function Basename(p: string): string
  {
    if p == [] then []
    else if p[|p| - 1] == '/' then []
    else Basename(p[..|p| - 1]) + [p[|p| - 1]]
  }

  /**
   * The base name is the last component of the path: a suffix of it with no
   * `/`, which is either all of the path or starts right after a `/`.
   */
  lemma {:induction false} BasenameSpec(p: string)
    ensures var r := Basename(p);
      && '/' !in r
      && |r| <= |p| && r == p[|p| - |r|..]
      && (|r| == |p| || p[|p| - |r| - 1] == '/')
    decreases |p|
  {
    if p != [] && p[|p| - 1] != '/' {
      var init, c := p[..|p| - 1], p[|p| - 1];
      BasenameSpec(init);
      var r0 := Basename(init);
      var k := |r0|;
      assert Basename(p) == r0 + [c];
      assert p[|p| - k - 1..] == init[|init| - k..] + [c];
    }
  }

  /** Python's `<` on strings: lexicographic by character code. */
  predicate Below(a: string, b: string)
    decreases |a|
  {
    if a == [] then b != []
    else b != [] && (a[0] < b[0] || (a[0] == b[0] && Below(a[1..], b[1..])))
  }

  lemma {:induction false} BelowIrreflexive(a: string)
    ensures !Below(a, a)
    decreases |a|
  {
    if a != [] {
      BelowIrreflexive(a[1..]);
    }
  }

  lemma {:induction false} BelowAsymmetric(a: string, b: string)
    ensures Below(a, b) ==> !Below(b, a)
    decreases |a|
  {
    if a != [] && b != [] {
      BelowAsymmetric(a[1..], b[1..]);
    }
  }

  lemma {:induction false} BelowTransitive(a: string, b: string, c: string)
    requires Below(a, b) && Below(b, c)
    ensures Below(a, c)
    decreases |a|
  {
    if a != [] && a[0] == b[0] && b[0] == c[0] {
      BelowTransitive(a[1..], b[1..], c[1..]);
    }
  }

  lemma {:induction false} BelowTotal(a: string, b: string)
    requires a != b
    ensures Below(a, b) || Below(b, a)
    decreases |a|
  {
    if a != [] && b != [] && a[0] == b[0] {
      assert a == [a[0]] + a[1..] && b == [b[0]] + b[1..];
      BelowTotal(a[1..], b[1..]);
    }
  }

  /** Every non-empty finite set of strings has a least element. */
  lemma {:induction false} LeastOf(ks: set<string>) returns (m: string)
    requires ks != {}
    ensures m in ks && forall x :: x in ks && x != m ==> Below(m, x)
    decreases ks
  {
    var y :| y in ks;
    if ks == {y} {
      m := y;
    } else {
      var m' := LeastOf(ks - {y});
      if Below(y, m') {
        m := y;
        forall x | x in ks && x != y
          ensures Below(y, x)
        {
          if x != m' {
            BelowTransitive(y, m', x);
          }
        }
      } else {
        m := m';
        BelowTotal(y, m');
      }
    }
  }

  lemma LeastExists(ks: set<string>)
    requires ks != {}
    ensures exists m :: m in ks && forall x :: x in ks && x != m ==> Below(m, x)
  {
    var m := LeastOf(ks);
  }

  function Least(ks: set<string>): (m: string)
    requires ks != {}
    ensures m in ks && forall x :: x in ks && x != m ==> Below(m, x)
  {
    LeastExists(ks);
    var m :| m in ks && forall x :: x in ks && x != m ==> Below(m, x);
    assert forall m' :: m' in ks && (forall x :: x in ks && x != m' ==> Below(m', x)) ==> m' == m by {
      forall m' | m' in ks && (forall x :: x in ks && x != m' ==> Below(m', x))
        ensures m' == m
      {
        if m' != m {
          BelowAsymmetric(m, m');
        }
      }
    }
    m
  }

  /** `sorted(ks)`: the strings of `ks` in ascending order. */
  function SortedStrings(ks: set<string>): (r: seq<string>)
    ensures |r| == |ks|
    ensures forall x :: x in r <==> x in ks
    ensures forall i, j :: 0 <= i < j < |r| ==> Below(r[i], r[j])
    decreases ks
  {
    if ks == {} then []
    else
      var m := Least(ks);
      [m] + SortedStrings(ks - {m})
  }
}
