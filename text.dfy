/** String helpers the core relies on from its languages' libraries:
    Python's `str.strip`, JavaScript's `String.prototype.trim`, Django's
    `strip_tags`, decimal and zero-padded formatting (`str(n)`, `f"{n:03d}"`),
    `' '.join(...)` and ASCII case mapping.

    Simplifications (stated once here):
    - whitespace is the six ASCII characters space, tab, line feed,
      carriage return, vertical tab and form feed; Unicode spaces are not;
    - a tag is a `<` up to the first `>` after it; a `<` with no `>` after it
      is ordinary text; entities and comments are not decoded;
    - case mapping changes ASCII letters only. */
module Text {

  predicate IsSpace(c: char) {
    c == ' ' || c == '\t' || c == '\n' || c == '\r' || c == '\U{B}' || c == '\U{C}'
  }

  predicate AllSpace(s: string) {
    forall i :: 0 <= i < |s| ==> IsSpace(s[i])
  }

  /** Removes the leading run of whitespace. */
  function TrimStart(s: string): (r: string)
    ensures |r| <= |s|
    ensures forall i :: 0 <= i < |s| - |r| ==> IsSpace(s[i])
    ensures r == [] || !IsSpace(r[0])
  {
    if s != [] && IsSpace(s[0]) then TrimStart(s[1..]) else s
  }

  /** Removes the trailing run of whitespace. */
  function TrimEnd(s: string): (r: string)
    ensures |r| <= |s|
    ensures forall i :: |r| <= i < |s| ==> IsSpace(s[i])
    ensures r == [] || !IsSpace(r[|r| - 1])
  {
    if s != [] && IsSpace(s[|s| - 1]) then TrimEnd(s[..|s| - 1]) else s
  }

  /** What `TrimStart` leaves is a suffix of its input. */
  lemma {:induction false} TrimStartSuffix(s: string)
    ensures TrimStart(s) == s[|s| - |TrimStart(s)|..]
    decreases |s|
  {
    if s != [] && IsSpace(s[0]) {
      TrimStartSuffix(s[1..]);
    }
  }

  /** What `TrimEnd` leaves is a prefix of its input. */
  lemma {:induction false} TrimEndPrefix(s: string)
    ensures TrimEnd(s) == s[..|TrimEnd(s)|]
    decreases |s|
  {
    if s != [] && IsSpace(s[|s| - 1]) {
      TrimEndPrefix(s[..|s| - 1]);
    }
  }

  /** Python `s.strip()` and JavaScript `s.trim()` on the whitespace above. */
  function Strip(s: string): string {
    TrimEnd(TrimStart(s))
  }

  /** A stripped string is a contiguous piece of the input with whitespace
      only around it, and it neither starts nor ends with whitespace. */
  lemma StripShape(s: string)
    ensures exists i, j :: 0 <= i <= j <= |s| && Strip(s) == s[i..j]
                           && AllSpace(s[..i]) && AllSpace(s[j..])
    ensures Strip(s) == [] || (!IsSpace(Strip(s)[0]) && !IsSpace(Strip(s)[|Strip(s)| - 1]))
  {
    assert exists i, j :: 0 <= i <= j <= |s| && Strip(s) == s[i..j] && AllSpace(s[..i]) && AllSpace(s[j..]) by {
      var i, j := StripBounds(s);
    }
    assert Strip(s) == [] || (!IsSpace(Strip(s)[0]) && !IsSpace(Strip(s)[|Strip(s)| - 1])) by {
      var t := TrimStart(s);
      assert Strip(s) == [] || Strip(s)[0] == t[0] by {
        TrimEndPrefix(t);
      }
    }
  }

  /** Where the stripped text lies in its input. */
  lemma StripBounds(s: string) returns (i: nat, j: nat)
    ensures 0 <= i <= j <= |s| && Strip(s) == s[i..j] && AllSpace(s[..i]) && AllSpace(s[j..])
  {
    var t := TrimStart(s);
    var r := TrimEnd(t);
    i := |s| - |t|;
    j := i + |r|;
    assert r == s[i..j] by {
      TrimStartSuffix(s);
      TrimEndPrefix(t);
      assert t == s[i..] && r == t[..|r|];
      assert s[i..][..|r|] == s[i..j];
    }
    assert AllSpace(s[..i]) by {
      forall k | 0 <= k < i ensures IsSpace(s[..i][k]) {
        assert s[..i][k] == s[k];
      }
    }
    assert AllSpace(s[j..]) by {
      TrimStartSuffix(s);
      assert s[j..] == t[|r|..];
      forall k | 0 <= k < |s| - j ensures IsSpace(s[j..][k]) {
        assert s[j..][k] == t[|r| + k];
      }
    }
  }

  /** The stripped text is empty exactly when the input is all whitespace. */
  lemma StripEmptyIff(s: string)
    ensures Strip(s) == [] <==> AllSpace(s)
  {
    var t := TrimStart(s);
    TrimStartSuffix(s);
    TrimEndPrefix(t);
    if Strip(s) == [] {
      assert t == [];
    } else {
      var r := Strip(s);
      assert r[0] == t[0];
      assert !IsSpace(t[0]);
      assert t[0] == s[|s| - |t|];
    }
  }

  /** Stripping twice is stripping once. */
  lemma StripIdempotent(s: string)
    ensures Strip(Strip(s)) == Strip(s)
  {
    var r := Strip(s);
    StripShape(s);
    if r != [] {
      assert TrimStart(r) == r;
      assert TrimEnd(r) == r;
    }
  }

  /** Index of the first `c` at or after `from`, or `|s|` if there is none. */
  function FindChar(s: string, c: char, from: nat): (r: nat)
    requires from <= |s|
    ensures from <= r <= |s|
    ensures forall i :: from <= i < r ==> s[i] != c
    ensures r < |s| ==> s[r] == c
    decreases |s| - from
  {
    if from == |s| then |s|
    else if s[from] == c then from
    else FindChar(s, c, from + 1)
  }

  /** Django's `strip_tags`, simplified: every `<` that has a `>` after it
      starts a tag running to the first such `>`, and tags are dropped. */
  function StripTags(s: string): (r: string)
    ensures |r| <= |s|
    decreases |s|
  {
    if s == [] then []
    else if s[0] == '<' && FindChar(s, '>', 1) < |s| then StripTags(s[FindChar(s, '>', 1) + 1..])
    else [s[0]] + StripTags(s[1..])
  }

  /** No `<` in `s` is followed, anywhere later, by a `>`. */
  predicate NoTag(s: string) {
    forall i, j :: 0 <= i < j < |s| && s[i] == '<' ==> s[j] != '>'
  }

  /** `StripTags` only removes characters: each it keeps comes from the input. */
  lemma {:induction false} StripTagsKeepsChars(s: string)
    ensures forall c :: c in StripTags(s) ==> c in s
    decreases |s|
  {
    if s != [] {
      if s[0] == '<' && FindChar(s, '>', 1) < |s| {
        var t := s[FindChar(s, '>', 1) + 1..];
        StripTagsKeepsChars(t);
        assert forall c :: c in t ==> c in s;
      } else {
        StripTagsKeepsChars(s[1..]);
        assert forall c :: c in s[1..] ==> c in s;
      }
    }
  }

  /** Text without a `<` passes through `StripTags` unchanged. */
  lemma {:induction false} StripTagsPlainText(s: string)
    requires '<' !in s
    ensures StripTags(s) == s
    decreases |s|
  {
    if s != [] {
      assert s[0] != '<';
      assert '<' !in s[1..] by {
        forall i | 0 <= i < |s| - 1 ensures s[1..][i] != '<' { assert s[1..][i] == s[i + 1]; }
      }
      StripTagsPlainText(s[1..]);
      assert s == [s[0]] + s[1..];
    }
  }

  /** Whatever survives `StripTags` holds no complete tag. */
  lemma {:induction false} StripTagsLeavesNoTag(s: string)
    ensures NoTag(StripTags(s))
    decreases |s|
  {
    if s == [] {
    } else if s[0] == '<' && FindChar(s, '>', 1) < |s| {
      StripTagsLeavesNoTag(s[FindChar(s, '>', 1) + 1..]);
    } else {
      var rest := StripTags(s[1..]);
      StripTagsLeavesNoTag(s[1..]);
      StripTagsKeepsChars(s[1..]);
      var r := [s[0]] + rest;
      assert StripTags(s) == r;
      forall i, j | 0 <= i < j < |r| && r[i] == '<' ensures r[j] != '>' {
        if i == 0 {
          assert s[0] == '<';
          assert FindChar(s, '>', 1) == |s|;
          assert r[j] == rest[j - 1];
          assert rest[j - 1] in s[1..];
          var k :| 0 <= k < |s| - 1 && s[1..][k] == rest[j - 1];
          assert s[k + 1] == rest[j - 1];
        } else {
          assert r[i] == rest[i - 1] && r[j] == rest[j - 1];
        }
      }
    }
  }

  /** A complete tag: `<`, then no `>` until the closing `>`. */
  predicate IsTag(tag: string) {
    |tag| >= 2 && tag[0] == '<' && tag[|tag| - 1] == '>' && '>' !in tag[..|tag| - 1]
  }

  /** A tag at the front is dropped. */
  lemma TagAtFront(tag: string, rest: string)
    requires IsTag(tag)
    ensures StripTags(tag + rest) == StripTags(rest)
  {
    var s := tag + rest;
    assert FindChar(s, '>', 1) == |tag| - 1 by {
      forall i | 1 <= i < |tag| - 1 ensures s[i] != '>' {
        assert s[i] == tag[..|tag| - 1][i];
      }
      assert s[|tag| - 1] == '>';
    }
    assert s[|tag|..] == rest;
  }

  /** A single wrapping element, as the rich-text editor produces it
      (`<p>New update</p>`), strips to its text. */
  lemma StripTagsWrapped(open: string, t: string, close: string)
    requires IsTag(open) && IsTag(close)
    requires '<' !in t
    ensures StripTags(open + t + close) == t
  {
    var u := t + close;
    assert open + t + close == open + u;
    assert StripTags(open + u) == StripTags(u) by {
      TagAtFront(open, u);
    }
    assert StripTags(close) == [] by {
      assert close + [] == close;
      TagAtFront(close, []);
    }
    assert StripTags(u) == t + [] by {
      StripTagsPrefix(t, close);
    }
    assert t + [] == t;
  }

  /** A character other than `<` is copied through. */
  lemma StripTagsCons(s: string)
    requires s != [] && s[0] != '<'
    ensures StripTags(s) == [s[0]] + StripTags(s[1..])
  {
  }

  /** Plain text in front of a string passes through before the rest is stripped. */
  lemma {:induction false} StripTagsPrefix(t: string, rest: string)
    requires '<' !in t
    ensures StripTags(t + rest) == t + StripTags(rest)
    decreases |t|
  {
    if t != [] {
      var u := t + rest;
      assert u[0] == t[0] && t[0] in t;
      StripTagsCons(u);
      assert u[1..] == t[1..] + rest;
      assert '<' !in t[1..] by {
        forall i | 0 <= i < |t| - 1 ensures t[1..][i] != '<' { assert t[1..][i] == t[i + 1]; }
      }
      StripTagsPrefix(t[1..], rest);
      assert t == [t[0]] + t[1..];
      assert [t[0]] + (t[1..] + StripTags(rest)) == t + StripTags(rest);
    } else {
      assert t + rest == rest;
    }
  }

  predicate IsDigit(c: char) { '0' <= c <= '9' }

  function DigitChar(d: nat): (c: char)
    requires d < 10
    ensures IsDigit(c)
  {
    ['0', '1', '2', '3', '4', '5', '6', '7', '8', '9'][d]
  }

  function DigitValue(c: char): (d: nat)
    requires IsDigit(c)
    ensures d < 10 && DigitChar(d) == c
  {
    if c == '0' then 0 else if c == '1' then 1 else if c == '2' then 2
    else if c == '3' then 3 else if c == '4' then 4 else if c == '5' then 5
    else if c == '6' then 6 else if c == '7' then 7 else if c == '8' then 8 else 9
  }

  predicate AllDigits(s: string) {
    forall i :: 0 <= i < |s| ==> IsDigit(s[i])
  }

  /** Value of a string of decimal digits, most significant first. */
  function ParseDecimal(s: string): nat
    requires AllDigits(s)
  {
    if s == [] then 0 else ParseDecimal(s[..|s| - 1]) * 10 + DigitValue(s[|s| - 1])
  }

  /** Python `str(n)` / JavaScript template interpolation of a non-negative integer. */
  function DecimalString(n: nat): (r: string)
    ensures r != [] && AllDigits(r)
    ensures n < 10 <==> |r| == 1
    ensures n >= 10 ==> r[0] != '0'
  {
    if n < 10 then [DigitChar(n)] else DecimalString(n / 10) + [DigitChar(n % 10)]
  }

  /** A digit character reads back as its digit. */
  lemma DigitRoundTrip(d: nat)
    requires d < 10
    ensures DigitValue(DigitChar(d)) == d
  {
    if d < 5 {
      assert d == 0 || d == 1 || d == 2 || d == 3 || d == 4;
    } else {
      assert d == 5 || d == 6 || d == 7 || d == 8 || d == 9;
    }
  }

  /** Reading back a formatted number gives the number. */
  lemma {:induction false} DecimalRoundTrip(n: nat)
    ensures ParseDecimal(DecimalString(n)) == n
  {
    var s := DecimalString(n);
    if n < 10 {
      DigitRoundTrip(n);
      assert s[..0] == [];
    } else {
      var q, r := n / 10, n % 10;
      assert s == DecimalString(q) + [DigitChar(r)];
      assert s[..|s| - 1] == DecimalString(q);
      assert ParseDecimal(DecimalString(q)) == q by {
        DecimalRoundTrip(q);
      }
      DigitRoundTrip(r);
      assert ParseDecimal(s) == q * 10 + r;
    }
  }

  /** Numbers below 1000 take at most three digits. */
  lemma DecimalLength(n: nat)
    requires n < 1000
    ensures |DecimalString(n)| <= 3
  {
    if n >= 10 {
      assert |DecimalString(n)| == |DecimalString(n / 10)| + 1;
      if n >= 100 {
        assert |DecimalString(n / 10)| == |DecimalString(n / 100)| + 1 by {
          assert n / 10 / 10 == n / 100;
        }
      }
    }
  }

  /** Different numbers format differently. */
  lemma DecimalInjective(m: nat, n: nat)
    requires DecimalString(m) == DecimalString(n)
    ensures m == n
  {
    DecimalRoundTrip(m);
    DecimalRoundTrip(n);
  }

  function Zeros(k: nat): (r: string)
    ensures |r| == k && forall i :: 0 <= i < k ==> r[i] == '0'
  {
    if k == 0 then [] else ['0'] + Zeros(k - 1)
  }

  /** Python `f"{n:0wd}"`: the decimal digits padded on the left with zeros
      to at least `width` characters. */
  function ZeroPad(n: nat, width: nat): (r: string)
    ensures |r| == if |DecimalString(n)| < width then width else |DecimalString(n)|
    ensures AllDigits(r)
  {
    var d := DecimalString(n);
    if |d| < width then Zeros(width - |d|) + d else d
  }

  /** Leading zeros do not change a decimal value. */
  lemma {:induction false} ParseLeadingZeros(k: nat, d: string)
    requires AllDigits(d)
    ensures AllDigits(Zeros(k) + d) && ParseDecimal(Zeros(k) + d) == ParseDecimal(d)
    decreases |d|
  {
    var s := Zeros(k) + d;
    if d == [] {
      assert s == Zeros(k);
      ParseZeros(k);
    } else {
      assert s[..|s| - 1] == Zeros(k) + d[..|d| - 1];
      ParseLeadingZeros(k, d[..|d| - 1]);
    }
  }

  lemma {:induction false} ParseZeros(k: nat)
    ensures ParseDecimal(Zeros(k)) == 0
  {
    if k > 0 {
      assert Zeros(k)[..k - 1] == Zeros(k - 1) by {
        ZerosSplit(k);
      }
      ParseZeros(k - 1);
    }
  }

  lemma ZerosSplit(k: nat)
    requires k > 0
    ensures Zeros(k) == Zeros(k - 1) + ['0']
  {
    assert Zeros(k)[..k - 1] == Zeros(k - 1);
  }

  /** A zero-padded number reads back as the number. */
  lemma ZeroPadRoundTrip(n: nat, width: nat)
    ensures ParseDecimal(ZeroPad(n, width)) == n
  {
    var d := DecimalString(n);
    assert ParseDecimal(d) == n by {
      DecimalRoundTrip(n);
    }
    if |d| < width {
      var z := Zeros(width - |d|);
      assert ZeroPad(n, width) == z + d;
      assert ParseDecimal(z + d) == ParseDecimal(d) by {
        ParseLeadingZeros(width - |d|, d);
      }
    } else {
      assert ZeroPad(n, width) == d;
    }
  }

  /** Python `sep.join(items)`. */
  function Join(items: seq<string>, sep: string): (r: string)
    ensures items == [] ==> r == []
    ensures |items| == 1 ==> r == items[0]
  {
    if items == [] then []
    else if |items| == 1 then items[0]
    else items[0] + sep + Join(items[1..], sep)
  }

  /** Appending an item to a non-empty join adds the separator and the item. */
  lemma {:induction false} JoinSnoc(items: seq<string>, x: string, sep: string)
    requires items != []
    ensures Join(items + [x], sep) == Join(items, sep) + sep + x
    decreases |items|
  {
    if |items| == 1 {
      assert (items + [x])[1..] == [x];
    } else {
      assert (items + [x])[0] == items[0];
      assert (items + [x])[1..] == items[1..] + [x];
      JoinSnoc(items[1..], x, sep);
    }
  }

  /** The number of occurrences of `c` in `s`. */
  function Occurrences(s: string, c: char): (n: nat)
    ensures n <= |s|
  {
    if s == [] then 0 else (if s[0] == c then 1 else 0) + Occurrences(s[1..], c)
  }

  lemma {:induction false} OccurrencesAppend(a: string, b: string, c: char)
    ensures Occurrences(a + b, c) == Occurrences(a, c) + Occurrences(b, c)
    decreases |a|
  {
    if a == [] {
      assert a + b == b;
    } else {
      assert (a + b)[0] == a[0];
      assert (a + b)[1..] == a[1..] + b;
      OccurrencesAppend(a[1..], b, c);
    }
  }

  lemma {:induction false} OccurrencesNone(s: string, c: char)
    requires forall i :: 0 <= i < |s| ==> s[i] != c
    ensures Occurrences(s, c) == 0
    decreases |s|
  {
    if s != [] {
      OccurrencesNone(s[1..], c);
    }
  }

  /** Items free of `c` joined by the one-character separator `[c]` hold
      one `c` per gap between items. */
  lemma {:induction false} JoinOccurrences(items: seq<string>, c: char)
    requires items != []
    requires forall k, i :: 0 <= k < |items| && 0 <= i < |items[k]| ==> items[k][i] != c
    ensures Occurrences(Join(items, [c]), c) == |items| - 1
    decreases |items|
  {
    OccurrencesNone(items[0], c);
    if |items| > 1 {
      JoinOccurrences(items[1..], c);
      OccurrencesAppend(items[0] + [c], Join(items[1..], [c]), c);
      OccurrencesAppend(items[0], [c], c);
    }
  }

  function LowerChar(c: char): char {
    if 'A' <= c <= 'Z' then (c as int + 32) as char else c
  }

  function UpperChar(c: char): char {
    if 'a' <= c <= 'z' then (c as int - 32) as char else c
  }

  /** JavaScript `toLowerCase`, on ASCII letters. */
  function Lower(s: string): (r: string)
    ensures |r| == |s| && forall i :: 0 <= i < |s| ==> r[i] == LowerChar(s[i])
  {
    seq(|s|, i requires 0 <= i < |s| => LowerChar(s[i]))
  }
}
