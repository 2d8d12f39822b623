/** The Python string primitives the extractors rely on: `str.isspace`, `str.strip`,
    `str.split()`, `re.sub(' +', ' ', s)`, `str.isnumeric` and `str.replace(',', '')`. */
module Text {

  /** Python's `str.isspace` on one character. */
  predicate IsSpace(c: char) {
    ('\U{9}' <= c <= '\U{D}') || ('\U{1C}' <= c <= ' ') || c == '\U{85}' || c == '\U{A0}'
    || c == '\U{1680}' || ('\U{2000}' <= c <= '\U{200A}') || c == '\U{2028}' || c == '\U{2029}'
    || c == '\U{202F}' || c == '\U{205F}' || c == '\U{3000}'
  }

  predicate IsDigit(c: char) {
    '0' <= c <= '9'
  }

  predicate NoSpace(s: string) {
    forall k :: 0 <= k < |s| ==> !IsSpace(s[k])
  }

  /** Drops the leading whitespace (Python's `lstrip()`). */
  function TrimStart(s: string): (r: string)
    ensures |r| <= |s|
    ensures forall k :: 0 <= k < |s| - |r| ==> IsSpace(s[k])
    ensures r == [] || !IsSpace(r[0])
  {
    if s != [] && IsSpace(s[0]) then TrimStart(s[1..]) else s
  }

  /** Drops the trailing whitespace (Python's `rstrip()`). */
  function TrimEnd(s: string): (r: string)
    ensures |r| <= |s| && r == s[..|r|]
    ensures forall k :: |r| <= k < |s| ==> IsSpace(s[k])
    ensures r == [] || !IsSpace(r[|r| - 1])
  {
    if s != [] && IsSpace(s[|s| - 1]) then TrimEnd(s[..|s| - 1]) else s
  }

  /** What `TrimStart` leaves is a suffix of its argument. (Kept out of `TrimStart`'s own
      contract: stated there, it would relate every string to its own suffixes wherever
      `TrimStart` is mentioned.) */
  lemma {:induction false} TrimStartSuffix(s: string)
    ensures TrimStart(s) == s[|s| - |TrimStart(s)|..]
    decreases |s|
  {
    if s != [] && IsSpace(s[0]) {
      TrimStartSuffix(s[1..]);
      assert s[1..][|s[1..]| - |TrimStart(s[1..])|..] == s[|s| - |TrimStart(s)|..];
    }
  }

  /** Where `Strip(s)` starts in `s`: the number of leading whitespace characters. */
  function StripOffset(s: string): (i: nat)
    ensures i <= |s| && forall k :: 0 <= k < i ==> IsSpace(s[k])
    ensures i < |s| ==> !IsSpace(s[i])
  {
    TrimStartSuffix(s);
    |s| - |TrimStart(s)|
  }

  /** Python's `strip()`: the result is the slice of `s` left once the whitespace at both
      ends is cut off, and it neither starts nor ends with whitespace. */
  function Strip(s: string): (r: string)
    ensures StripOffset(s) + |r| <= |s| && r == s[StripOffset(s)..StripOffset(s) + |r|]
    ensures forall k :: StripOffset(s) + |r| <= k < |s| ==> IsSpace(s[k])
    ensures r == [] || (!IsSpace(r[0]) && !IsSpace(r[|r| - 1]))
    ensures r == [] <==> forall k :: 0 <= k < |s| ==> IsSpace(s[k])
  {
    TrimStartSuffix(s);
    var t := TrimStart(s);
    var r := TrimEnd(t);
    r
  }

  /** No two adjacent characters are both U+0020. */
  predicate NoDoubleSpace(s: string) {
    forall k :: 0 <= k < |s| - 1 ==> !(s[k] == ' ' && s[k + 1] == ' ')
  }

  /** `re.sub(' +', ' ', s)`: every run of space characters (U+0020 only) becomes one space.
      Tabs, newlines and other whitespace are left alone. */
  function CollapseSpaces(s: string): (r: string)
    ensures |r| <= |s|
    ensures r == [] <==> s == []
  {
    if s == [] then []
    else if |s| >= 2 && s[0] == ' ' && s[1] == ' ' then CollapseSpaces(s[1..])
    else [s[0]] + CollapseSpaces(s[1..])
  }

  /** Collapsing keeps the first and last characters and leaves no two adjacent spaces.
      (Kept out of `CollapseSpaces`'s own contract, where it would be unfolded at every
      recursive call the solver looks at.) */
  lemma {:induction false} CollapseShape(s: string)
    ensures var r := CollapseSpaces(s);
      (s != [] ==> r[0] == s[0] && r[|r| - 1] == s[|s| - 1]) && NoDoubleSpace(r)
    decreases |s|
  {
    if s != [] {
      CollapseShape(s[1..]);
      if !(|s| >= 2 && s[0] == ' ' && s[1] == ' ') {
        var t := CollapseSpaces(s[1..]);
        var r := [s[0]] + t;
        assert r == CollapseSpaces(s);
        forall k | 0 <= k < |r| - 1
          ensures !(r[k] == ' ' && r[k + 1] == ' ')
        {
          if k > 0 {
            assert r[k] == t[k - 1] && r[k + 1] == t[k];
          }
        }
      }
    }
  }

  /** The characters of `s` other than U+0020, in order. */
  function WithoutBlanks(s: string): (r: string)
    ensures |r| <= |s|
    ensures forall k :: 0 <= k < |r| ==> r[k] != ' '
  {
    if s == [] then [] else if s[0] == ' ' then WithoutBlanks(s[1..]) else [s[0]] + WithoutBlanks(s[1..])
  }

  /** Collapsing keeps every character that is not a space, in order. */
  lemma {:induction false} CollapseKeepsText(s: string)
    ensures WithoutBlanks(CollapseSpaces(s)) == WithoutBlanks(s)
    decreases |s|
  {
    if s == [] {
    } else if |s| >= 2 && s[0] == ' ' && s[1] == ' ' {
      CollapseKeepsText(s[1..]);
    } else {
      CollapseKeepsText(s[1..]);
      assert ([s[0]] + CollapseSpaces(s[1..]))[1..] == CollapseSpaces(s[1..]);
    }
  }

  /** A string without two adjacent spaces is left unchanged, so collapsing is idempotent. */
  lemma {:induction false} CollapseIdentity(s: string)
    requires NoDoubleSpace(s)
    ensures CollapseSpaces(s) == s
    decreases |s|
  {
    if s != [] {
      assert NoDoubleSpace(s[1..]);
      CollapseIdentity(s[1..]);
      assert s == [s[0]] + s[1..];
    }
  }

  /** A run of spaces between two pieces of text becomes exactly one space: collapsing
      `a`, a non-empty run of spaces and `b` gives `a` and `b` collapsed on their own,
      joined by a single space. With `CollapseIdentity` this pins down the result on every
      input: the space-free pieces are kept and every run between them becomes one space. */
  lemma {:induction false} CollapseGap(a: string, gap: string, b: string)
    requires a == [] || a[|a| - 1] != ' '
    requires gap != [] && forall k :: 0 <= k < |gap| ==> gap[k] == ' '
    requires b == [] || b[0] != ' '
    ensures CollapseSpaces(a + (gap + b)) == CollapseSpaces(a) + (" " + CollapseSpaces(b))
    decreases |a|
  {
    if a == [] {
      assert a + (gap + b) == gap + b;
      CollapseLeadingGap(gap, b);
    } else {
      CollapseGap(a[1..], gap, b);
      CollapseHead(a, gap + b, " " + CollapseSpaces(b));
    }
  }


  /** What follows a non-empty `a` ending in a non-space does not change how `a` collapses:
      if `a` without its first character, followed by `u`, collapses to that prefix
      collapsed and then `v`, the same holds for `a` itself. */
  lemma CollapseHead(a: string, u: string, v: string)
    requires a != [] && a[|a| - 1] != ' '
    requires CollapseSpaces(a[1..] + u) == CollapseSpaces(a[1..]) + v
    ensures CollapseSpaces(a + u) == CollapseSpaces(a) + v
  {
    var s := a + u;
    assert s[1..] == a[1..] + u;
    if |a| >= 2 {
      assert s[1] == a[1];
    }
    if !(|a| >= 2 && a[0] == ' ' && a[1] == ' ') {
      var ca := CollapseSpaces(a[1..]);
      assert [a[0]] + (ca + v) == [a[0]] + ca + v;
    }
  }

  /** A leading run of spaces collapses to one space. */
  lemma {:induction false} CollapseLeadingGap(gap: string, b: string)
    requires gap != [] && forall k :: 0 <= k < |gap| ==> gap[k] == ' '
    requires b == [] || b[0] != ' '
    ensures CollapseSpaces(gap + b) == " " + CollapseSpaces(b)
    decreases |gap|
  {
    if |gap| >= 2 {
      assert (gap + b)[1..] == gap[1..] + b;
      CollapseLeadingGap(gap[1..], b);
    } else {
      assert (gap + b)[1..] == b;
    }
  }

  /** Python's `isnumeric()`, restricted to the ASCII digits: false on the empty string. */
  predicate IsNumeric(s: string) {
    |s| > 0 && forall k :: 0 <= k < |s| ==> IsDigit(s[k])
  }

  lemma DigitsAreWord(s: string)
    requires IsNumeric(s)
    ensures s != [] && NoSpace(s)
  {
  }

  lemma BlanksAreSpace(gap: string)
    requires forall k :: 0 <= k < |gap| ==> gap[k] == ' '
    ensures forall k :: 0 <= k < |gap| ==> IsSpace(gap[k])
  {
  }

  /** The longest prefix of `s` without whitespace. */
  function LeadingWord(s: string): (w: string)
    ensures |w| <= |s| && w == s[..|w|] && NoSpace(w)
    ensures |w| == |s| || IsSpace(s[|w|])
    ensures s != [] && !IsSpace(s[0]) ==> |w| > 0
  {
    if s == [] || IsSpace(s[0]) then [] else [s[0]] + LeadingWord(s[1..])
  }

  /** Python's `split()` without arguments: the maximal whitespace-free pieces, in order. */
  function Split(s: string): (ws: seq<string>)
    ensures forall k :: 0 <= k < |ws| ==> ws[k] != [] && NoSpace(ws[k])
    decreases |s|
  {
    var t := TrimStart(s);
    if t == [] then []
    else
      var w := LeadingWord(t);
      [w] + Split(t[|w|..])
  }

  /** Splitting a whitespace-free word followed by whitespace and more text. */
  lemma SplitWord(w: string, gap: string, rest: string)
    requires w != [] && NoSpace(w)
    requires gap != [] && forall k :: 0 <= k < |gap| ==> IsSpace(gap[k])
    ensures Split(w + (gap + rest)) == [w] + Split(rest)
  {
    var s := w + (gap + rest);
    assert s[0] == w[0];
    assert TrimStart(s) == s;
    LeadingWordOf(w, gap + rest);
    assert s[|w|..] == gap + rest;
    SplitSkipsGap(gap, rest);
  }

  lemma {:induction false} LeadingWordOf(w: string, rest: string)
    requires NoSpace(w)
    requires rest == [] || IsSpace(rest[0])
    ensures LeadingWord(w + rest) == w
    decreases |w|
  {
    if w != [] {
      assert (w + rest)[1..] == w[1..] + rest;
      LeadingWordOf(w[1..], rest);
      assert w == [w[0]] + w[1..];
    } else {
      assert w + rest == rest;
    }
  }

  lemma {:induction false} SplitSkipsGap(gap: string, rest: string)
    requires forall k :: 0 <= k < |gap| ==> IsSpace(gap[k])
    ensures Split(gap + rest) == Split(rest)
    decreases |gap|
  {
    if gap == [] {
      assert gap + rest == rest;
    } else {
      assert TrimStart(gap + rest) == TrimStart((gap + rest)[1..]);
      assert (gap + rest)[1..] == gap[1..] + rest;
      SplitSkipsGap(gap[1..], rest);
      assert Split(gap + rest) == Split(gap[1..] + rest) by {
        assert TrimStart(gap + rest) == TrimStart(gap[1..] + rest);
      }
    }
  }

  /** A whitespace-free word splits into itself. */
  lemma SplitSingle(w: string)
    requires w != [] && NoSpace(w)
    ensures Split(w) == [w]
  {
    LeadingWordOf(w, []);
    assert w + [] == w;
    assert w[|w|..] == [];
  }

  /** `s.replace(',', '')`. */
  function RemoveCommas(s: string): (r: string)
    ensures |r| <= |s| && ',' !in r
    ensures ',' !in s ==> r == s
  {
    if s == [] then [] else if s[0] == ',' then RemoveCommas(s[1..]) else [s[0]] + RemoveCommas(s[1..])
  }

  /** Removing the commas works piece by piece: the result for `a + b` is the result for
      `a` followed by the result for `b`. With the single-character cases below, the result
      is exactly the characters of the input other than commas, in their order. */
  lemma {:induction false} RemoveCommasAppend(a: string, b: string)
    ensures RemoveCommas(a + b) == RemoveCommas(a) + RemoveCommas(b)
    decreases |a|
  {
    if a == [] {
      assert a + b == b;
    } else {
      assert (a + b)[1..] == a[1..] + b;
      RemoveCommasAppend(a[1..], b);
    }
  }

  /** A comma disappears; any other character stays. */
  lemma RemoveCommasChar(c: char)
    ensures RemoveCommas([c]) == if c == ',' then [] else [c]
  {
    assert [c][1..] == [];
  }

  /** The number a string of decimal digits denotes, most significant digit first. */
  function DigitsValue(s: string): nat
    requires forall k :: 0 <= k < |s| ==> IsDigit(s[k])
  {
    if s == [] then 0
    else
      assert IsDigit(s[|s| - 1]);
      10 * DigitsValue(s[..|s| - 1]) + (s[|s| - 1] as int - '0' as int)
  }

  /** Decimal rendering of a natural number, as an f-string formats an int. */
  function DecimalString(n: nat): (r: string)
    ensures IsNumeric(r)
    ensures n < 10 ==> |r| == 1
    ensures 10 <= n < 100 ==> |r| == 2
  {
    if n < 10 then ['0' + n as char] else DecimalString(n / 10) + ['0' + (n % 10) as char]
  }

  /** The rendering denotes `n` and has no leading zero. */
  lemma {:induction false} DecimalValue(n: nat)
    ensures DigitsValue(DecimalString(n)) == n
    ensures |DecimalString(n)| > 1 ==> DecimalString(n)[0] != '0'
    decreases n
  {
    var r := DecimalString(n);
    if n >= 10 {
      DecimalValue(n / 10);
      var h := DecimalString(n / 10);
      assert r == h + ['0' + (n % 10) as char];
      assert r[..|r| - 1] == h;
    }
  }
}
