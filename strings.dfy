/** The small part of Go's `strings` and `fmt` packages that the scanner's
    command loop, banner display and address formatting rely on. Go strings
    are byte strings; here a string is a `seq<char>` and white space and case
    are ASCII only. */
module Strings {

  /** ASCII white space as Go's `unicode.IsSpace` classifies it: space,
      tab, line feed, vertical tab, form feed and carriage return. */
  predicate IsSpace(c: char) {
    c == ' ' || '\t' <= c <= '\r'
  }

  predicate AllSpace(s: string) {
    forall i :: 0 <= i < |s| ==> IsSpace(s[i])
  }

  /** Neither end of `s` is white space. */
  predicate NoEdgeSpace(s: string) {
    s == [] || (!IsSpace(s[0]) && !IsSpace(s[|s| - 1]))
  }

  /** `s` without its leading white space. */
  function TrimLeft(s: string): (r: string)
    ensures |r| <= |s| && r == s[|s| - |r|..]
    ensures AllSpace(s[..|s| - |r|])
    ensures r == [] || !IsSpace(r[0])
    decreases |s|
  {
    if s != [] && IsSpace(s[0]) then
      var r := TrimLeft(s[1..]);
      assert s[..|s| - |r|] == [s[0]] + s[1..][..|s| - 1 - |r|];
      r
    else s
  }

  /** `s` without its trailing white space. */
  function TrimRight(s: string): (r: string)
    ensures |r| <= |s| && r == s[..|r|]
    ensures AllSpace(s[|r|..])
    ensures r == [] || !IsSpace(r[|r| - 1])
    decreases |s|
  {
    if s != [] && IsSpace(s[|s| - 1]) then
      var r := TrimRight(s[..|s| - 1]);
      assert s[|r|..] == s[..|s| - 1][|r|..] + [s[|s| - 1]];
      r
    else s
  }

  /** Go's `strings.TrimSpace`: `s` with white space cut from both ends. */
  function TrimSpace(s: string): (r: string)
    ensures NoEdgeSpace(r) && |r| <= |s|
  {
    TrimRight(TrimLeft(s))
  }

  /** `v` is a slice of `s` with only white space on either side of it. */
  predicate CutFrom(v: string, s: string) {
    exists i :: 0 <= i <= |s| - |v| && v == s[i..i + |v|] && AllSpace(s[..i]) && AllSpace(s[i + |v|..])
  }

  /** The trimmed text is a slice of `s`, and what is cut from either side
      of it is white space. */
  lemma TrimSpaceIsSlice(s: string)
    ensures CutFrom(TrimSpace(s), s)
  {
    var l := TrimLeft(s);
    var v := TrimRight(l);
    var i := |s| - |l|;
    assert l == s[i..];
    assert v == l[..|v|] == s[i..i + |v|];
    assert s[i + |v|..] == l[|v|..];
    CutAt(v, s, i);
  }

  lemma CutAt(v: string, s: string, i: int)
    requires 0 <= i <= |s| - |v| && v == s[i..i + |v|] && AllSpace(s[..i]) && AllSpace(s[i + |v|..])
    ensures CutFrom(v, s)
  {
  }

  lemma {:induction false} TrimLeftSkips(pre: string, rest: string)
    requires AllSpace(pre) && (rest == [] || !IsSpace(rest[0]))
    ensures TrimLeft(pre + rest) == rest
    decreases |pre|
  {
    if pre != [] {
      assert (pre + rest)[1..] == pre[1..] + rest;
      TrimLeftSkips(pre[1..], rest);
    }
  }

  lemma {:induction false} TrimRightSkips(rest: string, post: string)
    requires AllSpace(post) && (rest == [] || !IsSpace(rest[|rest| - 1]))
    ensures TrimRight(rest + post) == rest
    decreases |post|
  {
    if post != [] {
      assert (rest + post)[..|rest + post| - 1] == rest + post[..|post| - 1];
      TrimRightSkips(rest, post[..|post| - 1]);
    }
  }

  /** White space around a core with no white space at its ends is exactly
      what TrimSpace removes. */
  lemma TrimSpaceOfPadded(pre: string, core: string, post: string)
    requires AllSpace(pre) && AllSpace(post) && NoEdgeSpace(core)
    ensures TrimSpace(pre + core + post) == core
  {
    if core == [] {
      assert pre + core + post == (pre + post) + [];
      TrimLeftSkips(pre + post, []);
    } else {
      assert pre + core + post == pre + (core + post);
      TrimLeftSkips(pre, core + post);
      TrimRightSkips(core, post);
    }
  }

  lemma TrimSpaceIdempotent(s: string)
    ensures TrimSpace(TrimSpace(s)) == TrimSpace(s)
  {
    TrimSpaceOfTrimmed(TrimSpace(s));
  }

  /** Text with no white space at its ends is left as it is. */
  lemma TrimSpaceOfTrimmed(t: string)
    requires NoEdgeSpace(t)
    ensures TrimSpace(t) == t
  {
    assert [] + t == t && t + [] == t;
    TrimLeftSkips([], t);
    TrimRightSkips(t, []);
  }

  /** ASCII lower-casing of one character, as `strings.ToLower` does it. */
  function Lower(c: char): char {
    if 'A' <= c <= 'Z' then (c as int + 32) as char else c
  }

  /** The upper-case partner of an ASCII lower-case letter. */
  function Upper(c: char): char {
    if 'a' <= c <= 'z' then (c as int - 32) as char else c
  }

  /** Go's `strings.ToLower`, restricted to ASCII letters. */
  function ToLower(s: string): string {
    seq(|s|, i requires 0 <= i < |s| => Lower(s[i]))
  }

  predicate HasNoUpper(w: string) {
    forall i :: 0 <= i < |w| ==> !('A' <= w[i] <= 'Z')
  }

  /** `s` spells `w` with each letter in either case. */
  predicate IsCasingOf(s: string, w: string) {
    |s| == |w| && forall i :: 0 <= i < |s| ==> s[i] == w[i] || s[i] == Upper(w[i])
  }

  /** Lower-casing `s` yields the lower-case word `w` exactly when `s` is a
      casing of `w`. */
  lemma ToLowerMatches(s: string, w: string)
    requires HasNoUpper(w)
    ensures ToLower(s) == w <==> IsCasingOf(s, w)
  {
    if ToLower(s) == w {
      forall i | 0 <= i < |s| ensures s[i] == w[i] || s[i] == Upper(w[i]) {
        assert Lower(s[i]) == w[i];
      }
    }
    if IsCasingOf(s, w) {
      forall i | 0 <= i < |s| ensures ToLower(s)[i] == w[i] {
        assert Lower(s[i]) == w[i];
      }
    }
  }

  /** The number of occurrences of `c` in `s`. */
  function Count(s: string, c: char): nat {
    if s == [] then 0 else (if s[0] == c then 1 else 0) + Count(s[1..], c)
  }

  /** Go's `strings.Join`. */
  function Join(xs: seq<string>, sep: string): string {
    if |xs| == 0 then ""
    else if |xs| == 1 then xs[0]
    else xs[0] + sep + Join(xs[1..], sep)
  }

  /** Go's `strings.Split` with a one-character separator: the pieces
      between separators, never trimmed; an empty `s` gives one empty
      piece. */
  function Split(s: string, sep: char): (pieces: seq<string>)
    ensures |pieces| >= 1
    decreases |s|
  {
    if s == [] then [""]
    else
      var rest := Split(s[1..], sep);
      if s[0] == sep then [""] + rest else [[s[0]] + rest[0]] + rest[1..]
  }

  /** A split has one piece more than the separators in `s`, no piece
      holds the separator, and joining the pieces with it gives `s` back. */
  lemma {:induction false} SplitPieces(s: string, sep: char)
    ensures var pieces := Split(s, sep);
            && |pieces| == Count(s, sep) + 1
            && (forall p :: p in pieces ==> sep !in p)
            && Join(pieces, [sep]) == s
    decreases |s|
  {
    if s != [] {
      SplitPieces(s[1..], sep);
      var rest := Split(s[1..], sep);
      if s[0] == sep {
        assert Join([""] + rest, [sep]) == "" + [sep] + Join(rest, [sep]);
      } else {
        var pieces := [[s[0]] + rest[0]] + rest[1..];
        assert pieces[1..] == rest[1..];
        assert s == [s[0]] + s[1..];
        assert rest[0] in rest;
        forall p | p in pieces ensures sep !in p {
          if p != pieces[0] {
            assert p in rest;
          }
        }
        if |rest| > 1 {
          assert Join(rest, [sep]) == rest[0] + [sep] + Join(rest[1..], [sep]);
        }
      }
    }
  }

  lemma {:induction false} SplitWithoutSeparator(s: string, sep: char)
    requires sep !in s
    ensures Split(s, sep) == [s]
    decreases |s|
  {
    if s != [] {
      SplitWithoutSeparator(s[1..], sep);
      assert [s[0]] + s[1..] == s;
    }
  }

  lemma {:induction false} SplitAtFirstSeparator(p: string, sep: char, rest: string)
    requires sep !in p
    ensures Split(p + [sep] + rest, sep) == [p] + Split(rest, sep)
    decreases |p|
  {
    var s := p + [sep] + rest;
    if p == [] {
      assert s[1..] == rest;
    } else {
      assert s[1..] == p[1..] + [sep] + rest;
      SplitAtFirstSeparator(p[1..], sep, rest);
      assert [p[0]] + p[1..] == p;
    }
  }

  /** Splitting undoes joining when no piece holds the separator. */
  lemma {:induction false} SplitJoin(xs: seq<string>, sep: char)
    requires |xs| >= 1
    requires forall p :: p in xs ==> sep !in p
    ensures Split(Join(xs, [sep]), sep) == xs
    decreases |xs|
  {
    if |xs| == 1 {
      SplitWithoutSeparator(xs[0], sep);
    } else {
      SplitAtFirstSeparator(xs[0], sep, Join(xs[1..], [sep]));
      SplitJoin(xs[1..], sep);
      assert xs == [xs[0]] + xs[1..];
    }
  }

  /** Each name after the first, with the blank that `", "` puts before it. */
  function SpaceLed(xs: seq<string>): (ys: seq<string>)
    ensures |ys| == |xs|
    ensures forall k :: 1 <= k < |xs| ==> ys[k] == " " + xs[k]
    ensures |xs| >= 1 ==> ys[0] == xs[0]
  {
    if |xs| == 0 then [] else [xs[0]] + seq(|xs| - 1, k requires 0 <= k < |xs| - 1 => " " + xs[k + 1])
  }

  lemma {:induction false} JoinCommaSpace(xs: seq<string>)
    requires |xs| >= 1
    ensures Join(xs, ", ") == Join(SpaceLed(xs), [','])
    decreases |xs|
  {
    if |xs| > 1 {
      JoinCommaSpace(xs[1..]);
      var ys, zs := SpaceLed(xs), SpaceLed(xs[1..]);
      var tail := Join(xs[1..], ", ");
      assert ys[1..] == [" " + zs[0]] + zs[1..];
      JoinLeadBlank(zs, ',');
      assert Join(ys[1..], [',']) == " " + tail;
      assert Join(ys, [',']) == xs[0] + [','] + (" " + tail);
      assert xs[0] + ", " + tail == xs[0] + [','] + (" " + tail);
    }
  }

  /** A blank before the first piece is a blank before the joined text. */
  lemma JoinLeadBlank(zs: seq<string>, sep: char)
    requires |zs| >= 1
    ensures Join([" " + zs[0]] + zs[1..], [sep]) == " " + Join(zs, [sep])
  {
    var ws := [" " + zs[0]] + zs[1..];
    if |zs| > 1 {
      assert ws[1..] == zs[1..];
      AppendAssoc(" ", zs[0] + [sep], Join(zs[1..], [sep]));
      AppendAssoc(" ", zs[0], [sep]);
    }
  }

  lemma AppendAssoc<T>(a: seq<T>, b: seq<T>, c: seq<T>)
    ensures (a + b) + c == a + (b + c)
  {
  }

  lemma TrimLeadingBlank(x: string)
    ensures TrimSpace(" " + x) == TrimSpace(x)
  {
    assert (" " + x)[1..] == x;
    assert TrimLeft(" " + x) == TrimLeft(x);
  }

  /** Names joined with `", "` come back when the text is split on commas
      again, each name after the first with the blank before it, provided
      no name contains a comma; up to white space, every piece is its name. */
  lemma SplitCommaSpaceJoin(xs: seq<string>)
    requires |xs| >= 1
    requires forall p :: p in xs ==> ',' !in p
    ensures Split(Join(xs, ", "), ',') == SpaceLed(xs)
    ensures |Split(Join(xs, ", "), ',')| == |xs|
    ensures forall k :: 0 <= k < |xs| ==> TrimSpace(Split(Join(xs, ", "), ',')[k]) == TrimSpace(xs[k])
  {
    var ys := SpaceLed(xs);
    SpaceLedAvoids(xs, ',');
    JoinCommaSpace(xs);
    SplitJoin(ys, ',');
    assert Split(Join(xs, ", "), ',') == ys;
    forall k | 1 <= k < |xs| ensures TrimSpace(ys[k]) == TrimSpace(xs[k]) {
      TrimLeadingBlank(xs[k]);
    }
  }

  /** Leading blanks bring in no character other than the blank. */
  lemma SpaceLedAvoids(xs: seq<string>, c: char)
    requires c != ' '
    requires forall p :: p in xs ==> c !in p
    ensures forall p :: p in SpaceLed(xs) ==> c !in p
  {
    var ys := SpaceLed(xs);
    forall p | p in ys ensures c !in p {
      var k :| 0 <= k < |ys| && ys[k] == p;
      assert xs[k] in xs;
      if k > 0 {
        assert p == " " + xs[k];
      }
    }
  }

  function DigitChar(d: nat): (c: char)
    requires d < 10
    ensures '0' <= c <= '9'
  {
    ('0' as int + d) as char
  }

  /** `fmt`'s `%d` for a natural number: decimal digits, no leading zero. */
  function NatToDecimal(n: nat): (s: string)
    ensures |s| >= 1
    ensures forall i :: 0 <= i < |s| ==> '0' <= s[i] <= '9'
    ensures s[0] == '0' ==> n == 0
    decreases n
  {
    if n < 10 then [DigitChar(n)] else NatToDecimal(n / 10) + [DigitChar(n % 10)]
  }

  /** The value of a string of decimal digits. */
  function DecimalValue(s: string): int {
    if s == [] then 0 else DecimalValue(s[..|s| - 1]) * 10 + (s[|s| - 1] as int - '0' as int)
  }

  lemma {:induction false} DecimalRoundTrip(n: nat)
    ensures DecimalValue(NatToDecimal(n)) == n
    decreases n
  {
    if n >= 10 {
      DecimalRoundTrip(n / 10);
      var s := NatToDecimal(n);
      assert s[..|s| - 1] == NatToDecimal(n / 10);
    }
  }

  /** `fmt`'s `%d` for any integer. */
  function FormatInt(i: int): (s: string)
    ensures |s| >= 1
    ensures forall k :: 0 <= k < |s| ==> s[k] == '-' || '0' <= s[k] <= '9'
  {
    if i < 0 then "-" + NatToDecimal(-i) else NatToDecimal(i)
  }

  /** Reads back what FormatInt writes. */
  function ParseInt(s: string): int {
    if |s| > 0 && s[0] == '-' then -DecimalValue(s[1..]) else DecimalValue(s)
  }

  lemma FormatIntRoundTrip(i: int)
    ensures ParseInt(FormatInt(i)) == i
  {
    if i < 0 {
      DecimalRoundTrip(-i);
      assert FormatInt(i)[1..] == NatToDecimal(-i);
    } else {
      DecimalRoundTrip(i);
    }
  }
}
