/** ASCII string helpers standing in for the parts of Go's `strings` and `strconv`
    packages that the generator uses: case mapping, trimming, splitting, joining and
    decimal conversion. Strings are sequences of ASCII characters; the Unicode tables
    behind Go's case mapping and white-space test are not modelled. */
module Text {
  import opened Wrappers

  // ---------------------------------------------------------------- case mapping

  predicate IsUpperLetter(c: char) { 'A' <= c <= 'Z' }

  predicate IsLowerLetter(c: char) { 'a' <= c <= 'z' }

  /** `unicode.ToLower` restricted to ASCII. */
  function LowerChar(c: char): (r: char)
    ensures !IsUpperLetter(r)
    ensures IsLowerLetter(c) || IsUpperLetter(c) <==> IsLowerLetter(r)
  {
    if IsUpperLetter(c) then (c as int + 32) as char else c
  }

  /** `unicode.ToUpper` restricted to ASCII. */
  function UpperChar(c: char): (r: char)
    ensures !IsLowerLetter(r)
    ensures LowerChar(r) == LowerChar(c)
  {
    if IsLowerLetter(c) then (c as int - 32) as char else c
  }

  /** `strings.ToLower`. */
  function Lower(s: string): (r: string)
    ensures |r| == |s|
    ensures forall i :: 0 <= i < |s| ==> r[i] == LowerChar(s[i])
  {
    seq(|s|, i requires 0 <= i < |s| => LowerChar(s[i]))
  }

  /** `strings.ToUpper`. */
  function Upper(s: string): (r: string)
    ensures |r| == |s|
    ensures forall i :: 0 <= i < |s| ==> r[i] == UpperChar(s[i])
  {
    seq(|s|, i requires 0 <= i < |s| => UpperChar(s[i]))
  }

  lemma UpperSingle(c: char)
    ensures Upper([c]) == [UpperChar(c)]
  {
  }

  predicate IsLowered(s: string) {
    forall i :: 0 <= i < |s| ==> !IsUpperLetter(s[i])
  }

  lemma LowerIsLowered(s: string)
    ensures IsLowered(Lower(s)) && Lower(Lower(s)) == Lower(s)
  {
  }

  lemma LowerOfLowered(s: string)
    requires IsLowered(s)
    ensures Lower(s) == s
  {
  }

  lemma LowerConcat(a: string, b: string)
    ensures Lower(a + b) == Lower(a) + Lower(b)
  {
  }

  // ---------------------------------------------------------------- white space

  /** The ASCII white space recognised by `strings.TrimSpace`. */
  predicate IsSpace(c: char) {
    c == ' ' || c == '\t' || c == '\n' || c == '\r' || c as int == 11 || c as int == 12
  }

  predicate NoSpace(s: string) {
    forall i :: 0 <= i < |s| ==> !IsSpace(s[i])
  }

  function TrimLeft(s: string): (r: string)
    ensures |r| <= |s|
    ensures r == [] || !IsSpace(r[0])
  {
    if s != [] && IsSpace(s[0]) then TrimLeft(s[1..]) else s
  }

  /** Trimming on the left drops exactly a run of white space. */
  lemma {:induction false} TrimLeftDropsSpace(s: string)
    ensures TrimLeft(s) == s[|s| - |TrimLeft(s)|..]
    ensures forall i :: 0 <= i < |s| - |TrimLeft(s)| ==> IsSpace(s[i])
  {
    if s != [] && IsSpace(s[0]) {
      TrimLeftDropsSpace(s[1..]);
      assert forall i :: 1 <= i < |s| ==> s[1..][i - 1] == s[i];
    }
  }

  function TrimRight(s: string): (r: string)
    ensures |r| <= |s|
    ensures r == [] || !IsSpace(r[|r| - 1])
  {
    if s != [] && IsSpace(s[|s| - 1]) then TrimRight(s[..|s| - 1]) else s
  }

  /** Trimming on the right drops exactly a run of white space. */
  lemma {:induction false} TrimRightDropsSpace(s: string)
    ensures TrimRight(s) == s[..|TrimRight(s)|]
    ensures forall i :: |TrimRight(s)| <= i < |s| ==> IsSpace(s[i])
  {
    if s != [] && IsSpace(s[|s| - 1]) {
      TrimRightDropsSpace(s[..|s| - 1]);
    }
  }

  /** `strings.TrimSpace`: the longest infix that neither starts nor ends with white space. */
  function TrimSpace(s: string): (r: string)
    ensures r == [] || (!IsSpace(r[0]) && !IsSpace(r[|r| - 1]))
  {
    var t := TrimLeft(s);
    TrimRightDropsSpace(t);
    TrimRight(t)
  }

  lemma TrimSpaceUnchanged(s: string)
    requires s == [] || (!IsSpace(s[0]) && !IsSpace(s[|s| - 1]))
    ensures TrimSpace(s) == s
  {
  }

  lemma TrimSpaceLeadingBlank(s: string)
    requires s != [] && !IsSpace(s[0]) && !IsSpace(s[|s| - 1])
    ensures TrimSpace(" " + s) == s
  {
    var t := " " + s;
    assert t[1..] == s;
    assert TrimLeft(s) == s;
    assert TrimLeft(t) == s;
    assert TrimRight(s) == s;
  }

  lemma NoSpaceLacksBlank(s: string)
    requires NoSpace(s)
    ensures ' ' !in s
  {
    assert forall i :: 0 <= i < |s| ==> s[i] != ' ';
  }

  lemma TrimSpaceOfSpaces(s: string)
    requires forall i :: 0 <= i < |s| ==> IsSpace(s[i])
    ensures TrimSpace(s) == []
  {
    TrimLeftDropsSpace(s);
  }

  // ---------------------------------------------------------------- prefixes

  /** `strings.HasPrefix`. */
  predicate HasPrefix(s: string, p: string) {
    |p| <= |s| && s[..|p|] == p
  }

  /** `strings.HasSuffix`. */
  predicate HasSuffix(s: string, x: string) {
    |x| <= |s| && s[|s| - |x|..] == x
  }

  /** Appending keeps a prefix. */
  lemma PrefixExtends(s: string, t: string, p: string)
    requires HasPrefix(s, p)
    ensures HasPrefix(s + t, p)
  {
    assert (s + t)[..|p|] == s[..|p|];
  }

  // ---------------------------------------------------------------- join and split

  /** `strings.Join`. */
  function Join(xs: seq<string>, sep: string): (r: string)
    ensures xs == [] ==> r == []
    ensures |xs| == 1 ==> r == xs[0]
  {
    if xs == [] then []
    else if |xs| == 1 then xs[0]
    else Join(xs[..|xs| - 1], sep) + sep + xs[|xs| - 1]
  }

  lemma JoinSnoc(xs: seq<string>, x: string, sep: string)
    requires xs != []
    ensures Join(xs + [x], sep) == Join(xs, sep) + sep + x
  {
    assert (xs + [x])[..|xs|] == xs;
  }

  /** `strings.Split` with a one-character separator. */
  function SplitOn(s: string, sep: char): (r: seq<string>)
    ensures |r| >= 1
  {
    if s == [] then [""]
    else
      var rest := SplitOn(s[1..], sep);
      if s[0] == sep then [""] + rest
      else [[s[0]] + rest[0]] + rest[1..]
  }

  /** No piece of a split holds the separator. */
  lemma {:induction false} SplitPiecesLackSep(s: string, sep: char)
    ensures forall k :: 0 <= k < |SplitOn(s, sep)| ==> sep !in SplitOn(s, sep)[k]
  {
    if s != [] {
      SplitPiecesLackSep(s[1..], sep);
    }
  }

  lemma {:induction false} SplitWithoutSep(s: string, sep: char)
    requires sep !in s
    ensures SplitOn(s, sep) == [s]
  {
    if s != [] {
      assert s[0] in s;
      assert forall x :: x in s[1..] ==> x in s;
      SplitWithoutSep(s[1..], sep);
      assert [s[0]] + s[1..] == s;
    }
  }

  /** Splitting around a separator splits each side independently. */
  lemma {:induction false} SplitAroundSep(a: string, b: string, sep: char)
    ensures SplitOn(a + [sep] + b, sep) == SplitOn(a, sep) + SplitOn(b, sep)
  {
    if a == [] {
      assert [] + [sep] + b == [sep] + b;
      assert ([sep] + b)[1..] == b;
    } else {
      assert (a + [sep] + b)[1..] == a[1..] + [sep] + b;
      SplitAroundSep(a[1..], b, sep);
    }
  }

  lemma SplitSingle(c: char, sep: char)
    requires c != sep
    ensures SplitOn([c], sep) == [[c]]
  {
    var e := SplitOn([], sep);
    assert [c][1..] == [];
    assert [c] + e[0] == [c];
  }

  /** The last piece of `r`, extended by `c`. */
  function ExtendLast(r: seq<string>, c: char): seq<string>
    requires |r| >= 1
  {
    r[..|r| - 1] + [r[|r| - 1] + [c]]
  }

  lemma ExtendLastCons(x: string, r: seq<string>, c: char)
    requires |r| >= 1
    ensures ExtendLast([x] + r, c) == [x] + ExtendLast(r, c)
  {
    assert ([x] + r)[..|r|] == [x] + r[..|r| - 1];
  }

  lemma ExtendLastHead(x: string, r: seq<string>, c: char)
    requires |r| >= 1
    ensures var e := ExtendLast(r, c);
            ExtendLast([x + r[0]] + r[1..], c) == [x + e[0]] + e[1..]
  {
    var e := ExtendLast(r, c);
    if |r| == 1 {
      assert e == [r[0] + [c]];
      assert x + r[0] + [c] == x + (r[0] + [c]);
    } else {
      assert e[0] == r[0];
      assert e[1..] == ExtendLast(r[1..], c);
    }
  }

  /** Appending a non-separator character extends the last piece. */
  lemma {:induction false} SplitSnocChar(p: string, c: char, sep: char)
    requires c != sep
    ensures SplitOn(p + [c], sep) == ExtendLast(SplitOn(p, sep), c)
  {
    if p == [] {
      SplitSingle(c, sep);
      assert p + [c] == [c];
    } else {
      var q := p[1..];
      assert (p + [c])[1..] == q + [c];
      SplitSnocChar(q, c, sep);
      var r := SplitOn(q, sep);
      if p[0] == sep {
        ExtendLastCons("", r, c);
      } else {
        ExtendLastHead([p[0]], r, c);
      }
    }
  }

  lemma SplitSnocSep(p: string, sep: char)
    ensures SplitOn(p + [sep], sep) == SplitOn(p, sep) + [""]
  {
    SplitAroundSep(p, [], sep);
    assert p + [sep] + [] == p + [sep];
  }

  /** Split undoes Join when no piece holds the separator. */
  lemma {:induction false} SplitJoin(xs: seq<string>, sep: char)
    requires xs != []
    requires forall k :: 0 <= k < |xs| ==> sep !in xs[k]
    ensures SplitOn(Join(xs, [sep]), sep) == xs
  {
    var n := |xs|;
    if n == 1 {
      SplitWithoutSep(xs[0], sep);
    } else {
      var init := xs[..n - 1];
      SplitJoin(init, sep);
      SplitAroundSep(Join(init, [sep]), xs[n - 1], sep);
      SplitWithoutSep(xs[n - 1], sep);
      assert init + [xs[n - 1]] == xs;
    }
  }

  /** A join of two or more pieces contains its one-character separator. */
  lemma JoinOfManyHasSep(xs: seq<string>, c: char)
    ensures |xs| > 1 ==> c in Join(xs, [c])
  {
    if |xs| > 1 {
      var init := Join(xs[..|xs| - 1], [c]);
      assert Join(xs, [c])[|init|] == c;
    }
  }

  lemma ReplaceCharConcat(x: string, y: string, a: char, b: char)
    ensures ReplaceChar(x + y, a, b) == ReplaceChar(x, a, b) + ReplaceChar(y, a, b)
  {
  }

  lemma ReplaceCharAbsent(x: string, a: char, b: char)
    requires a !in x
    ensures ReplaceChar(x, a, b) == x
  {
  }

  /** Replacing the separator character of a join swaps the separator. */
  lemma {:induction false} ReplaceJoin(xs: seq<string>, a: char, b: char)
    requires forall k :: 0 <= k < |xs| ==> a !in xs[k]
    ensures ReplaceChar(Join(xs, [a]), a, b) == Join(xs, [b])
  {
    if |xs| == 1 {
      ReplaceCharAbsent(xs[0], a, b);
    } else if |xs| > 1 {
      var init, last := xs[..|xs| - 1], xs[|xs| - 1];
      ReplaceJoin(init, a, b);
      ReplaceCharConcat(Join(init, [a]) + [a], last, a, b);
      ReplaceCharConcat(Join(init, [a]), [a], a, b);
      ReplaceCharAbsent(last, a, b);
    }
  }

  /** Extending a prefix by one element. */
  lemma AppendAssoc<T>(a: seq<T>, b: seq<T>, c: seq<T>)
    ensures a + b + c == a + (b + c)
  {
  }

  lemma PrefixSnoc<T>(xs: seq<T>, i: nat)
    requires i < |xs|
    ensures xs[..i + 1] == xs[..i] + [xs[i]]
    ensures xs[..i + 1][..i] == xs[..i]
  {
  }

  // ---------------------------------------------------------------- flattening

  function Concat(xs: seq<string>): (r: string)
    ensures xs == [] ==> r == []
  {
    if xs == [] then [] else Concat(xs[..|xs| - 1]) + xs[|xs| - 1]
  }

  lemma ConcatSnoc(xs: seq<string>, x: string)
    ensures Concat(xs + [x]) == Concat(xs) + x
  {
    assert (xs + [x])[..|xs|] == xs;
  }

  lemma {:induction false} ConcatCons(x: string, ys: seq<string>)
    ensures Concat([x] + ys) == x + Concat(ys)
  {
    if ys != [] {
      var init, last := ys[..|ys| - 1], ys[|ys| - 1];
      ConcatCons(x, init);
      assert [x] + ys == ([x] + init) + [last];
      ConcatSnoc([x] + init, last);
    }
  }

  // ---------------------------------------------------------------- decimal numbers

  function DigitChar(d: nat): (c: char)
    requires d < 10
    ensures '0' <= c <= '9' && c as int - '0' as int == d
  {
    ('0' as int + d) as char
  }

  /** `fmt.Sprintf("%v", n)` for a natural number. */
  function NatToString(n: nat): (r: string)
    ensures |r| >= 1
    ensures forall i :: 0 <= i < |r| ==> '0' <= r[i] <= '9'
  {
    if n < 10 then [DigitChar(n)] else NatToString(n / 10) + [DigitChar(n % 10)]
  }

  /** `fmt.Sprintf("%v", i)` for any integer. */
  function IntToString(i: int): (r: string)
    ensures |r| >= 1
  {
    if i < 0 then "-" + NatToString(-i) else NatToString(i)
  }

  predicate IsDigits(s: string) {
    forall i :: 0 <= i < |s| ==> '0' <= s[i] <= '9'
  }

  /** The value of a string of decimal digits. */
  function DigitsValue(s: string): nat
    requires IsDigits(s)
  {
    if s == [] then 0 else DigitsValue(s[..|s| - 1]) * 10 + (s[|s| - 1] as int - '0' as int)
  }

  const MinInt64: int := -0x8000_0000_0000_0000
  const MaxInt64: int := 0x7FFF_FFFF_FFFF_FFFF

  /** `strconv.Atoi(s)` with its error discarded, as `position, _ := strconv.Atoi(s)`
      does: an optional sign and at least one digit give their value clamped to the
      64-bit range (the value Atoi returns beside a range error), anything else gives 0. */
  function AtoiOrZero(s: string): (r: int)
    ensures MinInt64 <= r <= MaxInt64
    ensures !(IsDigits(s) && s != []) && !(|s| >= 2 && (s[0] == '-' || s[0] == '+') && IsDigits(s[1..])) ==> r == 0
  {
    var neg := s != [] && s[0] == '-';
    var body := if s != [] && (s[0] == '-' || s[0] == '+') then s[1..] else s;
    if body == [] || !IsDigits(body) then 0
    else
      var v: int := if neg then 0 - DigitsValue(body) else DigitsValue(body);
      if v < MinInt64 then MinInt64 else if v > MaxInt64 then MaxInt64 else v
  }

  lemma {:induction false} DigitsOfNat(n: nat)
    ensures IsDigits(NatToString(n)) && DigitsValue(NatToString(n)) == n
  {
    if n >= 10 {
      DigitsOfNat(n / 10);
      var s := NatToString(n);
      assert s[..|s| - 1] == NatToString(n / 10);
    }
  }

  /** Printing a position and parsing it back gives the position. */
  lemma AtoiOfNatToString(n: nat)
    requires n <= MaxInt64
    ensures AtoiOrZero(NatToString(n)) == n
  {
    DigitsOfNat(n);
  }

  lemma {:induction false} NatToStringInjective(m: nat, n: nat)
    requires NatToString(m) == NatToString(n)
    ensures m == n
  {
    DigitsOfNat(m);
    DigitsOfNat(n);
  }

  // ---------------------------------------------------------------- quoting

  /** `strings.ReplaceAll(s, "'", "''")`. */
  function DoubleQuotes(s: string): (r: string)
    ensures |r| >= |s|
  {
    if s == [] then []
    else (if s[0] == '\'' then "''" else [s[0]]) + DoubleQuotes(s[1..])
  }

  /** Reads an SQL string literal's body back: a doubled quote stands for one quote. */
  function Undouble(s: string): string
  {
    if s == [] then []
    else if |s| >= 2 && s[0] == '\'' && s[1] == '\'' then "'" + Undouble(s[2..])
    else [s[0]] + Undouble(s[1..])
  }

  /** Every quote of the escaped text is doubled: reading the literal back recovers the text. */
  lemma {:induction false} UndoubleDoubleQuotes(s: string)
    ensures Undouble(DoubleQuotes(s)) == s
  {
    if s != [] {
      UndoubleDoubleQuotes(s[1..]);
      var d := DoubleQuotes(s);
      if s[0] == '\'' {
        assert d[2..] == DoubleQuotes(s[1..]);
      } else {
        assert d[1..] == DoubleQuotes(s[1..]);
      }
    }
  }

  /** No quote is left alone: quotes come in adjacent pairs. */
  predicate QuotesPaired(s: string)
    decreases |s|
  {
    if s == [] then true
    else if s[0] == '\'' then |s| >= 2 && s[1] == '\'' && QuotesPaired(s[2..])
    else QuotesPaired(s[1..])
  }

  lemma {:induction false} DoubleQuotesPaired(s: string)
    ensures QuotesPaired(DoubleQuotes(s))
  {
    if s != [] {
      DoubleQuotesPaired(s[1..]);
      var d := DoubleQuotes(s);
      if s[0] == '\'' {
        assert d[2..] == DoubleQuotes(s[1..]);
      } else {
        assert d[1..] == DoubleQuotes(s[1..]);
      }
    }
  }

  /** `strings.ReplaceAll(s, string(a), string(b))` for single characters. */
  function ReplaceChar(s: string, a: char, b: char): (r: string)
    ensures |r| == |s|
    ensures forall i :: 0 <= i < |s| ==> r[i] == (if s[i] == a then b else s[i])
  {
    seq(|s|, i requires 0 <= i < |s| => if s[i] == a then b else s[i])
  }
}
