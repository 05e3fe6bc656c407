// The texts that gen_events_info produces and compares: str() of lists of words,
// decimal counts, and the splitting and sorting of lines.
module TraceText {
  import opened Sorting

  // What \w matches; every character above ASCII is admitted.
  predicate IsWordChar(c: char) {
    'a' <= c <= 'z' || 'A' <= c <= 'Z' || '0' <= c <= '9' || c == '_' || c > '\U{7F}'
  }

  predicate IsWord(s: string) {
    s != "" && forall i :: 0 <= i < |s| ==> IsWordChar(s[i])
  }

  // ----- Cutting a text at a delimiter

  predicate Free(s: string, c: char) {
    forall i :: 0 <= i < |s| ==> s[i] != c
  }

  // The first delimiter ends the first part.
  lemma CutUnique(x: string, u: string, y: string, v: string, c: char)
    requires Free(x, c) && Free(y, c)
    requires x + [c] + u == y + [c] + v
    ensures x == y && u == v
  {
    var s, t := x + [c] + u, y + [c] + v;
    assert s[|x|] == c && t[|y|] == c;
    assert forall i :: 0 <= i < |x| ==> s[i] == x[i];
    assert forall i :: 0 <= i < |y| ==> t[i] == y[i];
    assert |x| == |y|;
    assert s[..|x|] == x && t[..|y|] == y;
    assert s[|x| + 1..] == u && t[|y| + 1..] == v;
  }

  // ----- Decimal numbers

  function DigitChar(d: nat): (c: char)
    requires d < 10
    ensures '0' <= c <= '9' && c as int == '0' as int + d
  {
    '0' + d as char
  }

  function Decimal(n: nat): (s: string)
    ensures s != "" && (n < 10 <==> |s| == 1)
  {
    if n < 10 then [DigitChar(n)] else Decimal(n / 10) + [DigitChar(n % 10)]
  }

  predicate AllDigits(s: string) {
    forall i :: 0 <= i < |s| ==> '0' <= s[i] <= '9'
  }

  // What a string of digits denotes.
  function Value(s: string): (n: nat)
    requires AllDigits(s)
  {
    if s == "" then 0 else 10 * Value(s[..|s| - 1]) + (s[|s| - 1] as int - '0' as int)
  }

  ghost predicate Numeral(s: string) {
    s != "" && AllDigits(s) && (|s| > 1 ==> s[0] != '0')
  }

  // Reading the digits back gives the number, and there is no leading zero.
  lemma {:induction false} DecimalReadsBack(n: nat)
    ensures Numeral(Decimal(n)) && (Decimal(n)[0] == '0' <==> n == 0)
    ensures Value(Decimal(n)) == n
  {
    if n < 10 {
      assert Decimal(n)[..0] == "";
    } else {
      DecimalReadsBack(n / 10);
      var s := Decimal(n);
      assert s[..|s| - 1] == Decimal(n / 10);
    }
  }

  lemma {:induction false} NumeralValue(s: string)
    requires Numeral(s)
    ensures s[0] != '0' ==> 0 < Value(s)
  {
    if |s| == 1 {
      assert s[..0] == "";
    } else {
      NumeralValue(s[..|s| - 1]);
    }
  }

  // A numeral is the only one for its value.
  lemma {:induction false} DecimalOfValue(s: string)
    requires Numeral(s)
    ensures Decimal(Value(s)) == s
  {
    var last := |s| - 1;
    assert s == s[..last] + [s[last]];
    var d := s[last] as int - '0' as int;
    assert s[last] == DigitChar(d);
    if last == 0 {
      assert s[..0] == "";
    } else {
      DecimalOfValue(s[..last]);
      NumeralValue(s[..last]);
      assert Value(s) / 10 == Value(s[..last]) && Value(s) % 10 == d;
    }
  }

  lemma DecimalInjective(m: nat, n: nat)
    ensures Decimal(m) == Decimal(n) <==> m == n
  {
    DecimalReadsBack(m);
    DecimalReadsBack(n);
  }

  // ----- str() of a list of strings without quotes

  function MoreItems(xs: seq<string>): string {
    if xs == [] then "]" else ", '" + xs[0] + "'" + MoreItems(xs[1..])
  }

  function Repr(xs: seq<string>): string {
    if xs == [] then "[]" else "['" + xs[0] + "'" + MoreItems(xs[1..])
  }

  lemma {:induction false} MoreItemsAppend(xs: seq<string>, x: string)
    ensures MoreItems(xs) != ""
    ensures MoreItems(xs + [x]) == MoreItems(xs)[..|MoreItems(xs)| - 1] + ", '" + x + "']"
  {
    if xs == [] {
      assert ([] + [x])[1..] == [];
      assert MoreItems([]) == "]";
      assert "', '"[1..] == ", '";
      assert "'" + "]" == "']";
    } else {
      MoreItemsAppend(xs[1..], x);
      assert (xs + [x])[1..] == xs[1..] + [x];
      var head, rest := ", '" + xs[0] + "'", MoreItems(xs[1..]);
      assert MoreItems(xs) == head + rest;
      assert (head + rest)[..|head + rest| - 1] == head + rest[..|rest| - 1];
      assert MoreItems(xs + [x]) == head + (rest[..|rest| - 1] + ", '" + x + "']");
    }
  }

  // The printed form, item by item: quoted, separated by a comma and a blank, in brackets.
  lemma {:induction false} ReprAppend(xs: seq<string>, x: string)
    ensures Repr([]) == "[]" && Repr([x]) == "['" + x + "']"
    ensures xs != [] ==> Repr(xs + [x]) == Repr(xs)[..|Repr(xs)| - 1] + ", '" + x + "']"
  {
    assert [x][1..] == [];
    assert "'" + "]" == "']";
    if xs != [] {
      assert (xs + [x])[1..] == xs[1..] + [x];
      MoreItemsAppend(xs[1..], x);
      var head, rest := "['" + xs[0] + "'", MoreItems(xs[1..]);
      assert Repr(xs) == head + rest;
      assert (head + rest)[..|head + rest| - 1] == head + rest[..|rest| - 1];
      assert Repr(xs + [x]) == head + (rest[..|rest| - 1] + ", '" + x + "']");
    }
  }

  predicate QuoteFree(xs: seq<string>) {
    forall i :: 0 <= i < |xs| ==> Free(xs[i], '\'')
  }

  lemma CutQuoted(prefix: string, x: string, s: string, u: string, y: string, t: string, v: string)
    requires Free(x, '\'') && Free(y, '\'')
    requires prefix + x + "'" + s + u == prefix + y + "'" + t + v
    ensures x == y && s + u == t + v
  {
    var a, b := prefix + x + "'" + s + u, prefix + y + "'" + t + v;
    assert a == prefix + (x + ['\''] + (s + u));
    assert b == prefix + (y + ['\''] + (t + v));
    assert a[|prefix|..] == x + ['\''] + (s + u);
    assert b[|prefix|..] == y + ['\''] + (t + v);
    CutUnique(x, s + u, y, t + v, '\'');
  }

  lemma {:induction false} MoreItemsInjective(xs: seq<string>, u: string, ys: seq<string>, v: string)
    requires QuoteFree(xs) && QuoteFree(ys)
    requires MoreItems(xs) + u == MoreItems(ys) + v
    ensures xs == ys && u == v
    decreases |xs|
  {
    var s, t := MoreItems(xs) + u, MoreItems(ys) + v;
    assert s[0] == (if xs == [] then ']' else ',');
    assert t[0] == (if ys == [] then ']' else ',');
    if xs == [] {
      assert s[1..] == u && t[1..] == v;
    } else {
      assert s == ", '" + xs[0] + "'" + MoreItems(xs[1..]) + u;
      assert t == ", '" + ys[0] + "'" + MoreItems(ys[1..]) + v;
      CutQuoted(", '", xs[0], MoreItems(xs[1..]), u, ys[0], MoreItems(ys[1..]), v);
      MoreItemsInjective(xs[1..], u, ys[1..], v);
      assert xs == [xs[0]] + xs[1..] && ys == [ys[0]] + ys[1..];
    }
  }

  // A printed list can be read back, and so can whatever is printed after it.
  lemma ReprInjective(xs: seq<string>, u: string, ys: seq<string>, v: string)
    requires QuoteFree(xs) && QuoteFree(ys)
    requires Repr(xs) + u == Repr(ys) + v
    ensures xs == ys && u == v
  {
    var s, t := Repr(xs) + u, Repr(ys) + v;
    assert s[1] == (if xs == [] then ']' else '\'');
    assert t[1] == (if ys == [] then ']' else '\'');
    if xs == [] {
      assert s[2..] == u && t[2..] == v;
    } else {
      assert s == "['" + xs[0] + "'" + MoreItems(xs[1..]) + u;
      assert t == "['" + ys[0] + "'" + MoreItems(ys[1..]) + v;
      CutQuoted("['", xs[0], MoreItems(xs[1..]), u, ys[0], MoreItems(ys[1..]), v);
      MoreItemsInjective(xs[1..], u, ys[1..], v);
      assert xs == [xs[0]] + xs[1..] && ys == [ys[0]] + ys[1..];
    }
  }

  // ----- Concatenation

  function Concat(parts: seq<string>): string {
    if parts == [] then "" else Concat(parts[..|parts| - 1]) + parts[|parts| - 1]
  }

  lemma Associative(x: string, y: string, z: string)
    ensures (x + y) + z == x + (y + z)
  {
  }

  lemma {:induction false} ConcatFromFront(parts: seq<string>)
    requires parts != []
    ensures Concat(parts) == parts[0] + Concat(parts[1..])
  {
    var last := |parts| - 1;
    if last == 0 {
      assert parts[..0] == [] && parts[1..] == [];
    } else {
      ConcatFromFront(parts[..last]);
      assert parts[..last][1..] == parts[1..][..last - 1];
      Associative(parts[0], Concat(parts[1..][..last - 1]), parts[last]);
    }
  }

  // The concatenation of printed lists.
  function ReprAll(xss: seq<seq<string>>): string {
    Concat(Map(Repr, xss))
  }

  lemma ReprAllFromFront(xss: seq<seq<string>>)
    requires xss != []
    ensures ReprAll(xss) == Repr(xss[0]) + ReprAll(xss[1..])
  {
    ConcatFromFront(Map(Repr, xss));
    assert Map(Repr, xss)[1..] == Map(Repr, xss[1..]);
  }

  lemma ReprNotEmpty(xs: seq<string>)
    ensures |Repr(xs)| >= 2
  {
  }

  lemma {:induction false} ReprAllInjective(xss: seq<seq<string>>, yss: seq<seq<string>>)
    requires forall i :: 0 <= i < |xss| ==> QuoteFree(xss[i])
    requires forall i :: 0 <= i < |yss| ==> QuoteFree(yss[i])
    ensures ReprAll(xss) == ReprAll(yss) <==> xss == yss
    decreases |xss|
  {
    if xss != [] {
      ReprAllFromFront(xss);
      ReprNotEmpty(xss[0]);
    }
    if yss != [] {
      ReprAllFromFront(yss);
      ReprNotEmpty(yss[0]);
    }
    if xss != [] && yss != [] && ReprAll(xss) == ReprAll(yss) {
      ReprInjective(xss[0], ReprAll(xss[1..]), yss[0], ReprAll(yss[1..]));
      ReprAllInjective(xss[1..], yss[1..]);
      assert xss == [xss[0]] + xss[1..] && yss == [yss[0]] + yss[1..];
    }
  }

  // ----- Lines

  // text.split('\n')
  function Split(text: string): (lines: seq<string>)
    ensures lines != []
  {
    if text == "" then [""]
    else if text[0] == '\n' then [""] + Split(text[1..])
    else
      var rest := Split(text[1..]);
      [[text[0]] + rest[0]] + rest[1..]
  }

  lemma {:induction false} SplitLine(x: string, rest: string)
    requires Free(x, '\n')
    ensures Split(x + "\n" + rest) == [x] + Split(rest)
  {
    var text := x + "\n" + rest;
    if x == "" {
      assert text[1..] == rest;
    } else {
      SplitLine(x[1..], rest);
      assert text[1..] == x[1..] + "\n" + rest;
      assert [x[0]] + x[1..] == x;
    }
  }

  function Terminated(line: string): string {
    line + "\n"
  }

  // Every line followed by a newline.
  function Unlines(lines: seq<string>): string {
    Concat(Map(Terminated, lines))
  }

  lemma UnlinesFromFront(lines: seq<string>)
    requires lines != []
    ensures Unlines(lines) == lines[0] + "\n" + Unlines(lines[1..])
  {
    ConcatFromFront(Map(Terminated, lines));
    assert Map(Terminated, lines)[1..] == Map(Terminated, lines[1..]);
  }

  // Splitting gives the lines back, and one empty string after the last newline.
  lemma {:induction false} SplitUnlines(lines: seq<string>)
    requires forall i :: 0 <= i < |lines| ==> Free(lines[i], '\n')
    ensures Split(Unlines(lines)) == lines + [""]
  {
    if lines == [] {
    } else {
      UnlinesFromFront(lines);
      SplitLine(lines[0], Unlines(lines[1..]));
      SplitUnlines(lines[1..]);
      assert [lines[0]] + (lines[1..] + [""]) == lines + [""];
    }
  }

  // ----- Ordering of strings

  predicate LexLe(a: string, b: string) {
    a == "" || (b != "" && (a[0] < b[0] || (a[0] == b[0] && LexLe(a[1..], b[1..]))))
  }

  // At position k the strings differ for the first time, and a has the smaller character.
  predicate SmallerAt(a: string, b: string, k: nat) {
    k < |a| && k < |b| && a[k] < b[k] && forall i :: 0 <= i < k ==> a[i] == b[i]
  }

  // A string precedes its extensions; otherwise the first different character decides.
  lemma {:induction false} LexByFirstDifference(a: string, b: string)
    ensures LexLe(a, b) <==> a <= b || exists k: nat :: SmallerAt(a, b, k)
  {
    if a == "" || b == "" {
    } else if a[0] != b[0] {
      assert a[0] < b[0] ==> SmallerAt(a, b, 0);
    } else {
      var x, y := a[1..], b[1..];
      LexByFirstDifference(x, y);
      assert a == [a[0]] + x && b == [b[0]] + y;
      assert x <= y <==> a <= b;
      forall k: nat | SmallerAt(x, y, k)
        ensures SmallerAt(a, b, k + 1)
      {
        assert forall i :: 0 < i <= k ==> a[i] == x[i - 1] && b[i] == y[i - 1];
      }
      forall k: nat | SmallerAt(a, b, k)
        ensures 0 < k && SmallerAt(x, y, k - 1)
      {
        assert forall i :: 0 <= i < k - 1 ==> x[i] == a[i + 1] && y[i] == b[i + 1];
      }
    }
  }

  lemma {:induction false} LexTotal(a: string, b: string)
    ensures LexLe(a, b) || LexLe(b, a)
  {
    if a != "" && b != "" { LexTotal(a[1..], b[1..]); }
  }

  lemma {:induction false} LexAntisymmetric(a: string, b: string)
    requires LexLe(a, b) && LexLe(b, a)
    ensures a == b
  {
    if a == "" || b == "" {
    } else {
      LexAntisymmetric(a[1..], b[1..]);
      assert a == [a[0]] + a[1..] && b == [b[0]] + b[1..];
    }
  }

  lemma {:induction false} LexTransitive(a: string, b: string, c: string)
    requires LexLe(a, b) && LexLe(b, c)
    ensures LexLe(a, c)
  {
    if a != "" && a[0] == b[0] == c[0] { LexTransitive(a[1..], b[1..], c[1..]); }
  }

  lemma LexIsTotalOrder()
    ensures TotalOrder(LexLe)
  {
    forall a, b
      ensures LexLe(a, b) || LexLe(b, a)
    {
      LexTotal(a, b);
    }
    forall a, b | LexLe(a, b) && LexLe(b, a)
      ensures a == b
    {
      LexAntisymmetric(a, b);
    }
    forall a, b, c | LexLe(a, b) && LexLe(b, c)
      ensures LexLe(a, c)
    {
      LexTransitive(a, b, c);
    }
  }

  predicate IntLe(a: int, b: int) {
    a <= b
  }

  lemma IntIsTotalOrder()
    ensures TotalOrder(IntLe)
  {
  }
}
