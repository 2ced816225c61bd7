/** The Python string and list operations the backend relies on, written out so that
    their edge cases (`s[-0:]`, `strip()`, `split()`, `str(n)`, `title()`) are explicit. */
module Text {

  function Min(a: int, b: int): int { if a <= b then a else b }

  function Max(a: int, b: int): int { if a >= b then a else b }

  /** Python's `str.isspace()`, which is also the class `\s` matches in a `str` pattern. */
  predicate IsSpace(c: char) {
    || c == ' '
    || ('\t' <= c <= '\r')
    || ('\U{1C}' <= c <= '\U{1F}')
    || c == '\U{85}' || c == '\U{A0}' || c == '\U{1680}'
    || ('\U{2000}' <= c <= '\U{200A}')
    || c == '\U{2028}' || c == '\U{2029}' || c == '\U{202F}' || c == '\U{205F}' || c == '\U{3000}'
  }

  predicate IsAsciiUpper(c: char) { 'A' <= c <= 'Z' }

  predicate IsAsciiLower(c: char) { 'a' <= c <= 'z' }

  predicate IsAsciiLetter(c: char) { IsAsciiUpper(c) || IsAsciiLower(c) }

  predicate IsDigit(c: char) { '0' <= c <= '9' }

  predicate AllDigits(s: string) { forall i :: 0 <= i < |s| ==> IsDigit(s[i]) }

  // ---------------------------------------------------------------------------
  // Slicing

  /** Python's slice `s[-k:]` for an integer `k`. As `-0 == 0`, `k == 0` keeps the
      whole sequence; a negative `k` makes the start `-k` positive, so the first
      `-k` items are dropped. */
  function PyTail<T>(s: seq<T>, k: int): (r: seq<T>)
    ensures |r| <= |s| && r == s[|s| - |r|..]
    ensures k > 0 ==> |r| == Min(k, |s|)
    ensures k == 0 ==> r == s
    ensures k < 0 ==> |r| == Max(|s| + k, 0)
  {
    if k > 0 then (if k >= |s| then s else s[|s| - k..])
    else if k == 0 then s
    else if -k >= |s| then [] else s[-k..]
  }

  /** Keeping the last `k >= 1` items of a sequence and then appending one item keeps
      the same items as appending first: an item evicted earlier would be evicted now. */
  lemma PyTailAppend<T>(s: seq<T>, x: T, k: int)
    requires k >= 1
    ensures PyTail(PyTail(s, k) + [x], k) == PyTail(s + [x], k)
  {
    PyTailAppendAll(s, [x], k);
  }

  /** The same for appending several items at once. */
  lemma PyTailAppendAll<T>(s: seq<T>, xs: seq<T>, k: int)
    requires k >= 1
    ensures PyTail(PyTail(s, k) + xs, k) == PyTail(s + xs, k)
  {
    var t := PyTail(s, k);
    if |s| > k {
      var p := s[..|s| - k];
      assert s == p + t;
      assert s + xs == p + (t + xs);
      PyTailOfLonger(p, t + xs, k);
    }
  }

  /** The last `k` items of `p + u` are those of `u` when `u` has at least `k` items. */
  lemma PyTailOfLonger<T>(p: seq<T>, u: seq<T>, k: int)
    requires 1 <= k <= |u|
    ensures PyTail(p + u, k) == PyTail(u, k)
  {
    assert (p + u)[|p + u| - k..] == u[|u| - k..];
  }

  // ---------------------------------------------------------------------------
  // strip() and split()

  /** `s.lstrip()`. Its properties are stated by `StripStartSpec`, so that they enter a
      proof only where they are asked for. */
  function StripStart(s: string): (r: string)
    ensures |r| <= |s|
  {
    if s != [] && IsSpace(s[0]) then StripStart(s[1..]) else s
  }

  /** `lstrip()` removes the leading whitespace run and nothing else. */
  lemma {:induction false} StripStartSpec(s: string)
    ensures var r := StripStart(s);
      && r == s[|s| - |r|..]
      && (r == [] || !IsSpace(r[0]))
      && (forall i :: 0 <= i < |s| - |r| ==> IsSpace(s[i]))
      && (r == [] <==> forall i :: 0 <= i < |s| ==> IsSpace(s[i]))
  {
    if s != [] && IsSpace(s[0]) {
      StripStartSpec(s[1..]);
      var r := StripStart(s);
      forall i | 0 <= i < |s| - |r| ensures IsSpace(s[i]) {
        if i > 0 {
          assert s[i] == s[1..][i - 1];
        }
      }
    }
  }

  /** `s.rstrip()`; its properties are stated by `StripEndSpec`. */
  function StripEnd(s: string): (r: string)
    ensures |r| <= |s|
  {
    if s != [] && IsSpace(s[|s| - 1]) then StripEnd(s[..|s| - 1]) else s
  }

  /** `rstrip()` removes the trailing whitespace run and nothing else. */
  lemma {:induction false} StripEndSpec(s: string)
    ensures var r := StripEnd(s);
      && r == s[..|r|]
      && (r == [] || !IsSpace(r[|r| - 1]))
      && (forall i :: |r| <= i < |s| ==> IsSpace(s[i]))
  {
    if s != [] && IsSpace(s[|s| - 1]) {
      StripEndSpec(s[..|s| - 1]);
      var r := StripEnd(s);
      forall i | |r| <= i < |s| ensures IsSpace(s[i]) {
        if i < |s| - 1 {
          assert s[i] == s[..|s| - 1][i];
        }
      }
    }
  }

  /** `s.strip()`: the text between the leading and the trailing whitespace runs. */
  function Strip(s: string): (r: string)
    ensures |r| <= |s|
  {
    StripEnd(StripStart(s))
  }

  /** Where `strip()`'s result starts in its input. */
  function StripOffset(s: string): nat
    requires |StripStart(s)| <= |s|
  {
    |s| - |StripStart(s)|
  }

  /** `strip()` keeps one contiguous piece of its input, which starts and ends with a
      non-whitespace character, and is empty exactly when the input is all whitespace. */
  lemma StripSpec(s: string)
    ensures var r := Strip(s);
      && StripOffset(s) + |r| <= |s|
      && r == s[StripOffset(s)..StripOffset(s) + |r|]
      && (r != [] ==> !IsSpace(r[0]) && !IsSpace(r[|r| - 1]))
      && (r == [] <==> forall i :: 0 <= i < |s| ==> IsSpace(s[i]))
  {
    var t := StripStart(s);
    StripStartSpec(s);
    StripEndSpec(t);
    var r := StripEnd(t);
    assert r != [] ==> r[0] == t[0];
    assert r == t[..|r|];
  }

  /** Length of the leading run of non-whitespace characters. */
  function WordEnd(s: string): (n: nat)
    ensures n <= |s|
    ensures forall i :: 0 <= i < n ==> !IsSpace(s[i])
    ensures n == |s| || IsSpace(s[n])
  {
    if s == [] || IsSpace(s[0]) then 0 else 1 + WordEnd(s[1..])
  }

  /** `s.split()` with no separator: the maximal runs of non-whitespace characters. */
  function Words(s: string): (ws: seq<string>)
    ensures forall w :: w in ws ==> IsWord(w)
    ensures ws == [] <==> forall i :: 0 <= i < |s| ==> IsSpace(s[i])
    decreases |s|
  {
    if s == [] then []
    else if IsSpace(s[0]) then
      assert forall i :: 1 <= i < |s| ==> s[i] == s[1..][i - 1];
      Words(s[1..])
    else
      var n := WordEnd(s);
      var w := s[..n];
      assert IsWord(w) by {
        forall i | 0 <= i < |w| ensures !IsSpace(w[i]) {
          assert w[i] == s[i];
        }
      }
      [w] + Words(s[n..])
  }

  /** A word of `split()`: non-empty and free of whitespace. */
  predicate IsWord(w: string) { w != [] && forall i :: 0 <= i < |w| ==> !IsSpace(w[i]) }

  /** Whether `a` and `b` meet at whitespace (or one of them is empty), so that no word
      runs across the seam. */
  predicate Separated(a: string, b: string) {
    a == [] || b == [] || IsSpace(a[|a| - 1]) || IsSpace(b[0])
  }

  /** A leading whitespace character does not change the words. */
  lemma WordsSkipSpace(s: string)
    requires s != [] && IsSpace(s[0])
    ensures Words(s) == Words(s[1..])
  {
  }

  /** A word followed by whitespace or nothing is the first word. */
  lemma WordsOfWordThen(w: string, x: string)
    requires IsWord(w) && (x == [] || IsSpace(x[0]))
    ensures Words(w + x) == [w] + Words(x)
  {
    var s := w + x;
    assert s[0] == w[0];
    var n := WordEnd(s);
    assert forall i :: 0 <= i < |w| ==> s[i] == w[i];
    assert x != [] ==> s[|w|] == x[0];
    assert n == |w|;
    assert s[..n] == w;
    assert s[n..] == x;
  }

  /** A text that opens with a non-whitespace character is its first word followed by
      a rest that is empty or opens with whitespace. */
  lemma SplitAtWord(s: string)
    requires s != [] && !IsSpace(s[0])
    ensures var n := WordEnd(s);
      && 0 < n
      && IsWord(s[..n])
      && s[..n] + s[n..] == s
      && (s[n..] == [] || IsSpace(s[n..][0]))
  {
    var n := WordEnd(s);
    var w := s[..n];
    forall i | 0 <= i < |w| ensures !IsSpace(w[i]) {
      assert w[i] == s[i];
    }
    if n < |s| {
      assert s[n..][0] == s[n];
    }
  }

  /** Words of a text cut at whitespace are the words of each piece, in order. */
  lemma {:induction false} WordsConcat(a: string, b: string)
    requires Separated(a, b)
    ensures Words(a + b) == Words(a) + Words(b)
    decreases |a|
  {
    if a == [] {
      assert a + b == b;
    } else if IsSpace(a[0]) {
      SeparatedAfterFirst(a, b);
      WordsConcat(a[1..], b);
      WordsConcatSpace(a, b);
    } else if WordEnd(a) < |a| {
      SeparatedAfterWord(a, b);
      WordsConcat(a[WordEnd(a)..], b);
      WordsConcatWord(a, b);
    } else {
      WordsOfWholeWord(a, b);
    }
  }

  lemma SeparatedAfterFirst(a: string, b: string)
    requires Separated(a, b) && a != [] && IsSpace(a[0])
    ensures Separated(a[1..], b)
  {
    if a[1..] != [] {
      assert a[1..][|a[1..]| - 1] == a[|a| - 1];
    }
  }

  lemma SeparatedAfterWord(a: string, b: string)
    requires Separated(a, b) && WordEnd(a) < |a|
    ensures Separated(a[WordEnd(a)..], b)
  {
    var rest := a[WordEnd(a)..];
    assert rest[|rest| - 1] == a[|a| - 1];
  }

  /** The step of `WordsConcat` for a leading whitespace character. */
  lemma WordsConcatSpace(a: string, b: string)
    requires a != [] && IsSpace(a[0])
    requires Words(a[1..] + b) == Words(a[1..]) + Words(b)
    ensures Words(a + b) == Words(a) + Words(b)
  {
    var t := a[1..];
    assert a == [a[0]] + t;
    ConcatAssoc([a[0]], t, b);
    WordsAfterSpace(a[0], t + b);
    WordsAfterSpace(a[0], t);
  }

  /** A whitespace character in front of a text does not change its words. */
  lemma WordsAfterSpace(c: char, s: string)
    requires IsSpace(c)
    ensures Words([c] + s) == Words(s)
  {
    assert ([c] + s)[1..] == s;
    WordsSkipSpace([c] + s);
  }

  /** The step of `WordsConcat` for a leading word that ends inside `a`. */
  lemma WordsConcatWord(a: string, b: string)
    requires a != [] && !IsSpace(a[0]) && WordEnd(a) < |a|
    requires Words(a[WordEnd(a)..] + b) == Words(a[WordEnd(a)..]) + Words(b)
    ensures Words(a + b) == Words(a) + Words(b)
  {
    var n := WordEnd(a);
    var w := a[..n];
    var r := a[n..];
    SplitAtWord(a);
    ConcatAssoc(w, r, b);
    assert (r + b)[0] == r[0];
    WordsOfWordThen(w, r + b);
    WordsOfWordThen(w, r);
    ConcatAssoc([w], Words(r), Words(b));
  }

  /** The last case of `WordsConcat`: `a` is a single word. */
  lemma WordsOfWholeWord(a: string, b: string)
    requires Separated(a, b) && a != [] && !IsSpace(a[0]) && WordEnd(a) == |a|
    ensures Words(a + b) == Words(a) + Words(b)
  {
    SplitAtWord(a);
    assert a[..|a|] == a;
    WordsOfWordThen(a, b);
    WordsOfWordThen(a, []);
    assert a + [] == a;
  }

  /** Stripping the ends does not change the words. */
  lemma WordsStrip(s: string)
    ensures Words(Strip(s)) == Words(s)
  {
    WordsStripStart(s);
    WordsStripEnd(StripStart(s));
  }

  lemma {:induction false} WordsStripStart(s: string)
    ensures Words(StripStart(s)) == Words(s)
  {
    if s != [] && IsSpace(s[0]) {
      WordsStripStart(s[1..]);
    }
  }

  lemma {:induction false} WordsStripEnd(s: string)
    ensures Words(StripEnd(s)) == Words(s)
  {
    if s != [] && IsSpace(s[|s| - 1]) {
      var p := s[..|s| - 1];
      var c := s[|s| - 1];
      WordsStripEnd(p);
      assert s == p + [c];
      WordsConcat(p, [c]);
      WordsAfterSpace(c, []);
      assert [c] + [] == [c];
    }
  }

  lemma ConcatAssoc<T>(a: seq<T>, b: seq<T>, c: seq<T>)
    ensures a + b + c == a + (b + c)
  {
  }

  // ---------------------------------------------------------------------------
  // Filtering characters

  /** The characters of `s` that satisfy `keep`, in their order. */
  function Filter(s: string, keep: char -> bool): (r: string)
    ensures |r| <= |s|
    ensures forall i :: 0 <= i < |r| ==> keep(r[i])
  {
    if s == [] then [] else (if keep(s[0]) then [s[0]] else []) + Filter(s[1..], keep)
  }

  /** A filter keeps every character that passes the test as often as it occurs, and
      no other. */
  lemma {:induction false} FilterCounts(s: string, keep: char -> bool)
    ensures forall c :: keep(c) ==> multiset(Filter(s, keep))[c] == multiset(s)[c]
    ensures forall c :: !keep(c) ==> multiset(Filter(s, keep))[c] == 0
  {
    if s != [] {
      FilterCounts(s[1..], keep);
      assert s == [s[0]] + s[1..];
      assert multiset(s) == multiset([s[0]]) + multiset(s[1..]);
    }
  }

  /** Filtering commutes with concatenation, so it keeps the order of the characters. */
  lemma {:induction false} FilterConcat(a: string, b: string, keep: char -> bool)
    ensures Filter(a + b, keep) == Filter(a, keep) + Filter(b, keep)
  {
    if a == [] {
      assert a + b == b;
    } else {
      assert (a + b)[0] == a[0];
      assert (a + b)[1..] == a[1..] + b;
      FilterConcat(a[1..], b, keep);
    }
  }

  /** Filtering by a wider test first changes nothing. */
  lemma {:induction false} FilterOfFiltered(s: string, narrow: char -> bool, wide: char -> bool)
    requires forall c :: narrow(c) ==> wide(c)
    ensures Filter(Filter(s, wide), narrow) == Filter(s, narrow)
  {
    if s != [] {
      FilterOfFiltered(s[1..], narrow, wide);
      var head := if wide(s[0]) then [s[0]] else [];
      FilterConcat(head, Filter(s[1..], wide), narrow);
      if wide(s[0]) {
        assert head[1..] == [];
      }
    }
  }

  /** Filtering a text free of whitespace leaves a text free of whitespace. */
  lemma {:induction false} FilterOfWord(w: string, keep: char -> bool)
    requires forall i :: 0 <= i < |w| ==> !IsSpace(w[i])
    ensures forall i :: 0 <= i < |Filter(w, keep)| ==> !IsSpace(Filter(w, keep)[i])
  {
    if w != [] {
      FilterOfWord(w[1..], keep);
      var head := if keep(w[0]) then [w[0]] else [];
      assert Filter(w, keep) == head + Filter(w[1..], keep);
    }
  }

  /** Nothing of a string whose characters all fail the test is kept. */
  lemma {:induction false} FilterNone(s: string, keep: char -> bool)
    requires forall i :: 0 <= i < |s| ==> !keep(s[i])
    ensures Filter(s, keep) == []
  {
    if s != [] {
      FilterNone(s[1..], keep);
    }
  }

  // ---------------------------------------------------------------------------
  // str.join

  /** `sep.join(parts)`. */
  function Join(sep: string, parts: seq<string>): string {
    if |parts| == 0 then ""
    else if |parts| == 1 then parts[0]
    else parts[0] + sep + Join(sep, parts[1..])
  }

  /** A join starts with its first part, so it is non-empty when that part is. */
  lemma {:induction false} JoinStartsWithFirst(sep: string, parts: seq<string>)
    requires parts != []
    ensures |Join(sep, parts)| >= |parts[0]|
    ensures Join(sep, parts)[..|parts[0]|] == parts[0]
  {
    if |parts| > 1 {
      var j := Join(sep, parts);
      assert j == parts[0] + (sep + Join(sep, parts[1..]));
    }
  }

  /** Where part `i` starts in a join: after the parts before it, each followed by the
      separator. */
  function JoinOffset(sep: string, parts: seq<string>, i: nat): nat
    requires i <= |parts|
  {
    if i == 0 then 0 else |parts[0]| + |sep| + JoinOffset(sep, parts[1..], i - 1)
  }

  /** Every part of a join sits at its offset, right after a separator unless it is the
      first, and the last part ends the join. */
  lemma {:induction false} JoinPlaces(sep: string, parts: seq<string>, i: nat)
    requires i < |parts|
    ensures var j := Join(sep, parts); var o := JoinOffset(sep, parts, i);
      && o + |parts[i]| <= |j|
      && j[o..o + |parts[i]|] == parts[i]
      && (i > 0 ==> |sep| <= o && j[o - |sep|..o] == sep)
      && (i == |parts| - 1 ==> |j| == o + |parts[i]|)
  {
    if |parts| == 1 {
      assert Join(sep, parts) == parts[0];
    } else if i == 0 {
      JoinStartsWithFirst(sep, parts);
    } else {
      JoinPlaces(sep, parts[1..], i - 1);
      JoinPlacesLater(sep, parts, i);
    }
  }

  /** The step of `JoinPlaces` for a part after the first. */
  lemma JoinPlacesLater(sep: string, parts: seq<string>, i: nat)
    requires 0 < i < |parts|
    requires var j := Join(sep, parts[1..]); var o := JoinOffset(sep, parts[1..], i - 1); var x := parts[1..][i - 1];
      && o + |x| <= |j|
      && j[o..o + |x|] == x
      && (i - 1 > 0 ==> |sep| <= o && j[o - |sep|..o] == sep)
      && (i - 1 == |parts[1..]| - 1 ==> |j| == o + |x|)
    ensures var j := Join(sep, parts); var o := JoinOffset(sep, parts, i);
      && o + |parts[i]| <= |j|
      && j[o..o + |parts[i]|] == parts[i]
      && |sep| <= o && j[o - |sep|..o] == sep
      && (i == |parts| - 1 ==> |j| == o + |parts[i]|)
  {
    var rest := parts[1..];
    var lead := parts[0] + sep;
    var jr := Join(sep, rest);
    var o := JoinOffset(sep, rest, i - 1);
    assert rest[i - 1] == parts[i];
    assert Join(sep, parts) == lead + jr;
    SliceAfter(lead, jr, o, o + |parts[i]|);
    if i == 1 {
      SliceWithin(lead, jr, |parts[0]|, |lead|);
      assert lead[|parts[0]|..] == sep;
    } else {
      SliceAfter(lead, jr, o - |sep|, o);
    }
  }

  lemma SliceAfter<T>(a: seq<T>, b: seq<T>, lo: int, hi: int)
    requires 0 <= lo <= hi <= |b|
    ensures (a + b)[|a| + lo..|a| + hi] == b[lo..hi]
  {
  }

  lemma SliceWithin<T>(a: seq<T>, b: seq<T>, lo: int, hi: int)
    requires 0 <= lo <= hi <= |a|
    ensures (a + b)[lo..hi] == a[lo..hi]
  {
  }

  // ---------------------------------------------------------------------------
  // str(n) for integers

  function DigitChar(d: nat): (c: char)
    requires d < 10
    ensures IsDigit(c)
  {
    ('0' as int + d) as char
  }

  function DigitValue(c: char): (d: nat)
    requires IsDigit(c)
    ensures d < 10
  {
    c as int - '0' as int
  }

  /** `str(n)` for a natural number: its decimal digits without leading zeros. */
  function NatToString(n: nat): string {
    if n < 10 then [DigitChar(n)] else NatToString(n / 10) + [DigitChar(n % 10)]
  }

  /** `str(n)` is a non-empty run of digits, and it starts with `0` only when it is "0". */
  lemma {:induction false} NatToStringDigits(n: nat)
    ensures var r := NatToString(n); |r| >= 1 && AllDigits(r) && (r[0] == '0' ==> r == "0")
  {
    if n >= 10 {
      NatToStringDigits(n / 10);
      var r, d := NatToString(n), NatToString(n / 10);
      assert r == d + [DigitChar(n % 10)];
      assert r[0] == d[0];
    }
  }

  /** `str(n)` for any integer. */
  function IntToString(n: int): string {
    if n < 0 then "-" + NatToString(-n) else NatToString(n)
  }

  /** The value of a string of decimal digits. */
  function ParseNat(s: string): nat
    requires AllDigits(s)
  {
    if s == [] then 0 else 10 * ParseNat(s[..|s| - 1]) + DigitValue(s[|s| - 1])
  }

  /** `int(s)` for what `str(n)` produces. */
  function ParseInt(s: string): (n: int)
    requires s != [] ==> AllDigits(if s[0] == '-' then s[1..] else s)
  {
    if s != [] && s[0] == '-' then 0 - ParseNat(s[1..]) else ParseNat(s)
  }

  /** Reading back the decimal digits of `n` gives `n`. */
  lemma {:induction false} ParseNatToString(n: nat)
    ensures AllDigits(NatToString(n))
    ensures ParseNat(NatToString(n)) == n
  {
    NatToStringDigits(n);
    if n >= 10 {
      ParseNatToString(n / 10);
      var s := NatToString(n);
      assert s[..|s| - 1] == NatToString(n / 10);
    }
  }

  /** `int(str(n)) == n` for every integer `n`. */
  lemma IntToStringRoundTrip(n: int)
    ensures var s := IntToString(n); s != [] && AllDigits(if s[0] == '-' then s[1..] else s)
    ensures ParseInt(IntToString(n)) == n
  {
    NatToStringDigits(if n < 0 then -n else n);
    if n < 0 {
      ParseNatToString(-n);
      assert IntToString(n)[1..] == NatToString(-n);
    } else {
      ParseNatToString(n);
    }
  }

  // ---------------------------------------------------------------------------
  // str.title()

  function ToUpper(c: char): char {
    if IsAsciiLower(c) then (c as int - 32) as char else c
  }

  function ToLower(c: char): char {
    if IsAsciiUpper(c) then (c as int + 32) as char else c
  }

  /** `title()` continued from a state that says whether the previous character was a
      letter: a letter after a letter is lower-cased, any other letter upper-cased. */
  function TitleFrom(s: string, afterLetter: bool): (r: string)
    ensures |r| == |s|
  {
    if s == [] then []
    else if IsAsciiLetter(s[0]) then
      [if afterLetter then ToLower(s[0]) else ToUpper(s[0])] + TitleFrom(s[1..], true)
    else [s[0]] + TitleFrom(s[1..], false)
  }

  /** `s.title()`, with ASCII letters as the only cased characters. */
  function Title(s: string): string {
    TitleFrom(s, false)
  }

  /** A lower-case tail after a letter is left as it is. */
  lemma {:induction false} TitleKeepsLowerTail(s: string)
    requires forall i :: 0 <= i < |s| ==> IsAsciiLower(s[i])
    ensures TitleFrom(s, true) == s
  {
    if s != [] {
      TitleKeepsLowerTail(s[1..]);
    }
  }

  /** The role names the backend stores ("user", "assistant") are single lower-case
      words; `title()` capitalises their first letter and keeps the rest. */
  lemma TitleOfLowerWord(w: string)
    requires w != []
    requires forall i :: 0 <= i < |w| ==> IsAsciiLower(w[i])
    ensures Title(w) == [ToUpper(w[0])] + w[1..]
    ensures IsAsciiUpper(Title(w)[0])
  {
    TitleKeepsLowerTail(w[1..]);
  }
}
