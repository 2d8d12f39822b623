/** The fragment of Python's `re` engine that the extractors use: a pattern is a
    concatenation of greedy bounded repeats of a character class (`[0-9]{1,2}`, `/{0,2}`,
    ` *`, `.`), ordered alternatives of literal words (`Jan(?:uary)?|Feb...`, `pdf`) and
    the end anchor `$`. Matching backtracks exactly as Python does: a repeat tries its
    largest count first, alternatives are tried left to right, and the first complete
    match wins. `Search` is `re.search`: the leftmost position where the pattern matches. */
module Regex {
  import opened Wrappers
  import opened Text

  datatype CharClass =
    | AnyButNewline   // `.`
    | Digit           // `[0-9]`
    | DigitBarOrX     // `[0-9|X]`: inside a class `|` is a literal bar
    | Slash           // `/`
    | Comma           // `,`
    | Blank           // ` `

  predicate InClass(c: char, k: CharClass) {
    match k
    case AnyButNewline => c != '\n'
    case Digit => IsDigit(c)
    case DigitBarOrX => IsDigit(c) || c == '|' || c == 'X'
    case Slash => c == '/'
    case Comma => c == ','
    case Blank => c == ' '
  }

  datatype Item =
    | Repeat(cls: CharClass, min: nat, max: Option<nat>)  // cls{min,max}; max None is unbounded
    | Alternatives(words: seq<string>)                    // word0|word1|..., tried in order
    | EndOfText                                           // `$`

  type Pattern = seq<Item>

  /** The `n` characters from `i` on all belong to class `k`. */
  predicate Run(s: string, i: nat, n: nat, k: CharClass) {
    i + n <= |s| && forall j :: i <= j < i + n ==> InClass(s[j], k)
  }

  predicate LiteralAt(w: string, s: string, i: nat) {
    i + |w| <= |s| && s[i..i + |w|] == w
  }

  /** Python's `$` without MULTILINE: at the end, or just before a final newline. */
  predicate AtEnd(s: string, i: nat) {
    i == |s| || (i + 1 == |s| && s[i] == '\n')
  }

  /** A match is described by a trace: one choice per item, the repeat count of a
      `Repeat`, the index of the chosen word of an `Alternatives`, 0 for `EndOfText`. */
  function Width(it: Item, c: nat): nat {
    match it
    case Repeat(_, _, _) => c
    case Alternatives(ws) => if c < |ws| then |ws[c]| else 0
    case EndOfText => 0
  }

  predicate ItemFits(it: Item, s: string, i: nat, c: nat) {
    match it
    case Repeat(k, lo, hi) => lo <= c && (hi.None? || c <= hi.value) && Run(s, i, c, k)
    case Alternatives(ws) => c < |ws| && LiteralAt(ws[c], s, i)
    case EndOfText => c == 0 && AtEnd(s, i)
  }

  /** Trace `t` is a way for pattern `p` to match `s` starting at `i`. */
  predicate Fits(p: Pattern, s: string, i: nat, t: seq<nat>)
    decreases |p|
  {
    |t| == |p| && i <= |s| &&
    (p == [] || (ItemFits(p[0], s, i, t[0]) && Fits(p[1..], s, i + Width(p[0], t[0]), t[1..])))
  }

  /** Where a match with trace `t` starting at `i` ends. */
  function End(p: Pattern, i: nat, t: seq<nat>): nat
    requires |t| == |p|
    decreases |p|
  {
    if p == [] then i else End(p[1..], i + Width(p[0], t[0]), t[1..])
  }

  /** A fit is its first item's fit followed by a fit of the rest. */
  lemma FitsHead(p: Pattern, s: string, i: nat, t: seq<nat>)
    requires Fits(p, s, i, t) && p != []
    ensures ItemFits(p[0], s, i, t[0]) && Fits(p[1..], s, i + Width(p[0], t[0]), t[1..])
  {
  }

  /** Conversely, a first item that fits followed by a fit of the rest is a fit. */
  lemma FitsCons(p: Pattern, s: string, i: nat, c: nat, u: seq<nat>)
    requires p != [] && i <= |s| && ItemFits(p[0], s, i, c)
    requires Fits(p[1..], s, i + Width(p[0], c), u)
    ensures Fits(p, s, i, [c] + u)
  {
    assert ([c] + u)[1..] == u;
  }

  lemma {:induction false} FitsEnd(p: Pattern, s: string, i: nat, t: seq<nat>)
    requires Fits(p, s, i, t)
    ensures i <= End(p, i, t) <= |s|
    decreases |p|
  {
    if p != [] {
      FitsEnd(p[1..], s, i + Width(p[0], t[0]), t[1..]);
    }
  }

  /** Choice `a` is tried before choice `b` for item `it`. */
  predicate TriedBefore(it: Item, a: nat, b: nat) {
    match it
    case Repeat(_, _, _) => a > b
    case Alternatives(_) => a < b
    case EndOfText => false
  }

  /** Trace `t` comes before trace `u` in the engine's backtracking order. */
  predicate Preferred(p: Pattern, t: seq<nat>, u: seq<nat>)
    requires |t| == |p| && |u| == |p|
    decreases |p|
  {
    p != [] && (TriedBefore(p[0], t[0], u[0]) || (t[0] == u[0] && Preferred(p[1..], t[1..], u[1..])))
  }

  /** The match the engine finds when it starts at `i` (Python's `re.match` at `i`). */
  function MatchAt(p: Pattern, s: string, i: nat): (r: Option<seq<nat>>)
    requires i <= |s|
    ensures r.Some? ==> Fits(p, s, i, r.value)
    decreases |p|, 1, 0
  {
    if p == [] then Some([])
    else match p[0]
      case Repeat(k, lo, hi) =>
        TryRepeat(p, s, i, if hi.Some? && hi.value <= |s| - i then hi.value else |s| - i)
      case Alternatives(ws) => TryAlternative(p, s, i, 0)
      case EndOfText =>
        if AtEnd(s, i) then
          match MatchAt(p[1..], s, i)
          case Some(t) => Some([0] + t)
          case None => None
        else None
  }

  /** Greedy repeat: try `n` characters, then `n - 1`, ..., down to the minimum. */
  function TryRepeat(p: Pattern, s: string, i: nat, n: nat): (r: Option<seq<nat>>)
    requires i <= |s| && p != [] && p[0].Repeat?
    requires p[0].max.None? || n <= p[0].max.value
    ensures r.Some? ==> Fits(p, s, i, r.value) && r.value[0] <= n
    decreases |p|, 0, n
  {
    if n < p[0].min then None
    else
      var tail := if Run(s, i, n, p[0].cls) then MatchAt(p[1..], s, i + n) else None;
      if tail.Some? then Some([n] + tail.value)
      else if n == 0 then None
      else TryRepeat(p, s, i, n - 1)
  }

  /** Alternation: try word `k`, then word `k + 1`, ... */
  function TryAlternative(p: Pattern, s: string, i: nat, k: nat): (r: Option<seq<nat>>)
    requires i <= |s| && p != [] && p[0].Alternatives?
    ensures r.Some? ==> Fits(p, s, i, r.value) && r.value[0] >= k
    decreases |p|, 0, |p[0].words| - k
  {
    if k >= |p[0].words| then None
    else
      var w := p[0].words[k];
      var tail := if LiteralAt(w, s, i) then MatchAt(p[1..], s, i + |w|) else None;
      if tail.Some? then Some([k] + tail.value)
      else TryAlternative(p, s, i, k + 1)
  }

  /** Completeness and priority: whenever the pattern can match at `i`, the engine finds a
      match there, and no other way of matching comes before it in backtracking order. */
  lemma {:induction false} MatchAtBest(p: Pattern, s: string, i: nat, t: seq<nat>)
    requires Fits(p, s, i, t)
    ensures MatchAt(p, s, i).Some?
    ensures !Preferred(p, t, MatchAt(p, s, i).value)
    decreases |p|, 1, 0
  {
    if p != [] {
      match p[0]
      case Repeat(k, lo, hi) =>
        TryRepeatBest(p, s, i, if hi.Some? && hi.value <= |s| - i then hi.value else |s| - i, t);
      case Alternatives(ws) =>
        TryAlternativeBest(p, s, i, 0, t);
      case EndOfText =>
        MatchAtBest(p[1..], s, i, t[1..]);
        var u := MatchAt(p[1..], s, i).value;
        assert ([0] + u)[1..] == u;
    }
  }

  lemma {:induction false} TryRepeatBest(p: Pattern, s: string, i: nat, n: nat, t: seq<nat>)
    requires i <= |s| && p != [] && p[0].Repeat?
    requires p[0].max.None? || n <= p[0].max.value
    requires Fits(p, s, i, t) && t[0] <= n
    ensures TryRepeat(p, s, i, n).Some?
    ensures !Preferred(p, t, TryRepeat(p, s, i, n).value)
    decreases |p|, 0, n
  {
    var tail := if Run(s, i, n, p[0].cls) then MatchAt(p[1..], s, i + n) else None;
    if t[0] == n {
      MatchAtBest(p[1..], s, i + n, t[1..]);
      assert tail.Some?;
      assert ([n] + tail.value)[1..] == tail.value;
    } else if tail.Some? {
    } else {
      TryRepeatBest(p, s, i, n - 1, t);
    }
  }

  lemma {:induction false} TryAlternativeBest(p: Pattern, s: string, i: nat, k: nat, t: seq<nat>)
    requires i <= |s| && p != [] && p[0].Alternatives?
    requires Fits(p, s, i, t) && t[0] >= k
    ensures TryAlternative(p, s, i, k).Some?
    ensures !Preferred(p, t, TryAlternative(p, s, i, k).value)
    decreases |p|, 0, |p[0].words| - k
  {
    var w := p[0].words[k];
    var tail := if LiteralAt(w, s, i) then MatchAt(p[1..], s, i + |w|) else None;
    if t[0] == k {
      MatchAtBest(p[1..], s, i + |w|, t[1..]);
      assert tail.Some?;
      assert ([k] + tail.value)[1..] == tail.value;
    } else if tail.Some? {
    } else {
      TryAlternativeBest(p, s, i, k + 1, t);
    }
  }

  /** Python's `re.search` from position `from`: the leftmost start at which the engine
      matches, with the match it finds there. */
  function Search(p: Pattern, s: string, from: nat): (r: Option<(nat, seq<nat>)>)
    requires from <= |s|
    ensures r.Some? ==> from <= r.value.0 <= |s| && MatchAt(p, s, r.value.0) == Some(r.value.1)
    decreases |s| - from
  {
    match MatchAt(p, s, from)
    case Some(t) => Some((from, t))
    case None => if from == |s| then None else Search(p, s, from + 1)
  }

  /** No match starts before the one `Search` reports, and none at all when it reports none. */
  lemma {:induction false} SearchFirst(p: Pattern, s: string, from: nat)
    requires from <= |s|
    ensures Search(p, s, from).Some? ==>
      forall q :: from <= q < Search(p, s, from).value.0 ==> MatchAt(p, s, q).None?
    ensures Search(p, s, from).None? ==> forall q :: from <= q <= |s| ==> MatchAt(p, s, q).None?
    decreases |s| - from
  {
    if MatchAt(p, s, from).None? && from < |s| {
      SearchFirst(p, s, from + 1);
    }
  }

  /** `Search` answers exactly the question "where does the pattern first fit": it finds a
      match iff the pattern fits somewhere, it starts at the first place where it fits, and
      the trace it reports is a fit that no other fit there precedes. */
  lemma SearchLeftmost(p: Pattern, s: string, from: nat, q: nat, t: seq<nat>)
    requires from <= q <= |s| && Fits(p, s, q, t)
    ensures Search(p, s, from).Some?
    ensures Search(p, s, from).value.0 <= q
    ensures Search(p, s, from).value.0 == q ==> !Preferred(p, t, Search(p, s, from).value.1)
  {
    MatchAtBest(p, s, q, t);
    SearchFirst(p, s, from);
  }

  /** A search that succeeds reports a fit; so where nothing fits, nothing is found. */
  lemma SearchFits(p: Pattern, s: string, from: nat)
    requires from <= |s|
    ensures Search(p, s, from).Some? ==>
      Fits(p, s, Search(p, s, from).value.0, Search(p, s, from).value.1)
  {
  }

  /** The pattern fits at some position of `s`. */
  ghost predicate FitsSomewhere(p: Pattern, s: string) {
    exists q: nat, t: seq<nat> :: Fits(p, s, q, t)
  }

  /** `re.search` from the start finds a match exactly when the pattern fits somewhere. */
  lemma SearchFindsFit(p: Pattern, s: string)
    ensures Search(p, s, 0).Some? <==> FitsSomewhere(p, s)
  {
    if Search(p, s, 0).Some? {
      SearchFits(p, s, 0);
      var (q, t) := Search(p, s, 0).value;
      assert Fits(p, s, q, t);
    }
    if FitsSomewhere(p, s) {
      var q: nat, t: seq<nat> :| Fits(p, s, q, t);
      SearchLeftmost(p, s, 0, q, t);
    }
  }

  /** The text a successful search matched (Python's `group()`). */
  function Matched(p: Pattern, s: string, from: nat): string
    requires from <= |s| && Search(p, s, from).Some?
  {
    var (q, t) := Search(p, s, from).value;
    FitsEnd(p, s, q, t);
    s[q..End(p, q, t)]
  }

  /** Where each item of a match with trace `t` starts; the last entry is where it ends. */
  function Starts(p: Pattern, i: nat, t: seq<nat>): (r: seq<nat>)
    requires |t| == |p|
    ensures |r| == |p| + 1 && r[0] == i && r[|p|] == End(p, i, t)
    decreases |p|
  {
    if p == [] then [i] else [i] + Starts(p[1..], i + Width(p[0], t[0]), t[1..])
  }

  /** A fit, read item by item: item `k` fits where the previous one ended. */
  lemma {:induction false} FitsAt(p: Pattern, s: string, i: nat, t: seq<nat>, k: nat)
    requires Fits(p, s, i, t) && k < |p|
    ensures ItemFits(p[k], s, Starts(p, i, t)[k], t[k])
    ensures Starts(p, i, t)[k + 1] == Starts(p, i, t)[k] + Width(p[k], t[k])
    decreases |p|
  {
    if k > 0 {
      FitsAt(p[1..], s, i + Width(p[0], t[0]), t[1..], k - 1);
    }
  }
}
