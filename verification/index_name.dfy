/** The index-name extractor: the regular expression `reindex from \[(.*)\] to .*`
    applied with Go's `FindStringSubmatch`, which returns the capture group of the
    leftmost match (or `nil` when there is none).

    RE2 semantics, written out:
    - the match is unanchored and starts at the leftmost position that admits a match;
    - `.` matches every character except a newline;
    - the group `(.*)` is greedy, so for that start it extends to the LAST `] to `
      that is reachable without crossing a newline;
    - the trailing `.*` may match the empty string, so nothing is required after `] to `. */
module IndexName {
  import opened Wrappers

  /** The literal text before the capture group. */
  const Prefix: string := "reindex from ["
  /** The literal text after the capture group (the trailing `.*` may be empty). */
  const Sep: string := "] to "

  /** `Prefix` occurs in `s` at position `i`. */
  predicate PrefixAt(s: string, i: int) {
    0 <= i && i + |Prefix| <= |s| && s[i..i + |Prefix|] == Prefix
  }

  /** `Sep` occurs in `s` at position `j`. */
  predicate SepAt(s: string, j: int) {
    0 <= j && j + |Sep| <= |s| && s[j..j + |Sep|] == Sep
  }

  /** `s[lo..hi]` is a valid slice that a run of `.` can match: it holds no newline. */
  predicate OnOneLine(s: string, lo: int, hi: int) {
    0 <= lo <= hi <= |s| && forall m :: lo <= m < hi ==> s[m] != '\n'
  }

  /** The pattern matches `s` starting at `i` with the group ending at `j`,
      i.e. the group is `s[i + |Prefix| .. j]`. */
  predicate MatchAt(s: string, i: int, j: int) {
    PrefixAt(s, i) && i + |Prefix| <= j && SepAt(s, j) && OnOneLine(s, i + |Prefix|, j)
  }

  /** `(i, j)` is the match RE2 reports: leftmost start, then the greedy group end. */
  ghost predicate LeftmostGreedy(s: string, i: int, j: int) {
    && MatchAt(s, i, j)
    && (forall i', j' :: 0 <= i' < i ==> !MatchAt(s, i', j'))
    && (forall j' :: MatchAt(s, i, j') ==> j' <= j)
  }

  /** `t` occurs somewhere inside `s`. */
  ghost predicate Contains(s: string, t: string) {
    exists p :: 0 <= p <= |s| && t <= s[p..]
  }

  /** The last position `j >= k` where `Sep` starts and `s[k..j]` has no newline:
      the end of a greedy `(.*)` that begins at `k`. `LastSepFromIsGreedyEnd` states
      what it finds. */
  function LastSepFrom(s: string, k: nat): (r: Option<nat>)
    requires k <= |s|
    ensures r.Some? ==> k <= r.value && r.value + |Sep| <= |s|
    decreases |s| - k
  {
    if k == |s| || s[k] == '\n' then None
    else
      match LastSepFrom(s, k + 1)
      case Some(j) => Some(j)
      case None => if SepAt(s, k) then Some(k) else None
  }

  /** The leftmost match whose start is at least `i`, as the pair (start, group end).
      `FindMatchFromIsLeftmost` states what it finds. */
  function FindMatchFrom(s: string, i: nat): (r: Option<(nat, nat)>)
    requires i <= |s|
    ensures r.Some? ==> i <= r.value.0 && r.value.0 + |Prefix| <= r.value.1 <= |s|
    decreases |s| - i
  {
    if |s| < i + |Prefix| then None
    else if PrefixAt(s, i) then
      match LastSepFrom(s, i + |Prefix|)
      case Some(j) => Some((i, j))
      case None => FindMatchFrom(s, i + 1)
    else FindMatchFrom(s, i + 1)
  }

  /** `indexNameRE.FindStringSubmatch(description)[1]`, or `None` where Go gets `nil`.
      `ExtractIndexNoneIffNoMatch`, `ExtractIndexFound` and the two lemmas after them state what it returns. */
  function ExtractIndex(s: string): (r: Option<string>)
    ensures r.Some? ==> |r.value| + |Prefix| <= |s|
  {
    match FindMatchFrom(s, 0)
    case None => None
    case Some((i, j)) => Some(s[i + |Prefix|..j])
  }

  /** What `LastSepFrom` finds is the end of a match of `(.*)\] to ` from `k`, and no later
      end is reachable; `None` means no end is reachable at all. */
  lemma {:induction false} LastSepFromIsGreedyEnd(s: string, k: nat)
    requires k <= |s|
    ensures var r := LastSepFrom(s, k);
            && (r.Some? ==> SepAt(s, r.value) && OnOneLine(s, k, r.value))
            && (r.Some? ==> forall j :: r.value < j && SepAt(s, j) ==> !OnOneLine(s, k, j))
            && (r.None? ==> forall j :: k <= j && SepAt(s, j) ==> !OnOneLine(s, k, j))
    decreases |s| - k
  {
    if k < |s| && s[k] != '\n' {
      LastSepFromIsGreedyEnd(s, k + 1);
      forall j | k < j && OnOneLine(s, k, j) ensures OnOneLine(s, k + 1, j) {
      }
    }
  }

  /** The matches that start at `i`: the greedy end `LastSepFrom` finds after the prefix,
      or none when there is no prefix at `i` or no end is reachable. */
  lemma MatchesAtStart(s: string, i: nat)
    requires i + |Prefix| <= |s|
    ensures var r := LastSepFrom(s, i + |Prefix|);
            && (PrefixAt(s, i) && r.Some? ==> MatchAt(s, i, r.value))
            && (PrefixAt(s, i) && r.Some? ==> forall j :: MatchAt(s, i, j) ==> j <= r.value)
            && (!PrefixAt(s, i) || r.None? ==> forall j :: !MatchAt(s, i, j))
  {
    LastSepFromIsGreedyEnd(s, i + |Prefix|);
  }

  /** What `FindMatchFrom` finds is a match at or after `i`, no earlier start at or after
      `i` admits one, and its group end is the greatest for its start; `None` means no
      start at or after `i` admits a match. */
  lemma {:induction false} FindMatchFromIsLeftmost(s: string, i: nat)
    requires i <= |s|
    ensures var r := FindMatchFrom(s, i);
            && (r.Some? ==> MatchAt(s, r.value.0, r.value.1))
            && (r.Some? ==> forall i', j :: i <= i' < r.value.0 ==> !MatchAt(s, i', j))
            && (r.Some? ==> forall j :: MatchAt(s, r.value.0, j) ==> j <= r.value.1)
            && (r.None? ==> forall i', j :: i <= i' ==> !MatchAt(s, i', j))
    decreases |s| - i
  {
    if |s| < i + |Prefix| {
      assert FindMatchFrom(s, i) == None;
      forall i', j | i <= i' ensures !MatchAt(s, i', j) {
      }
    } else {
      MatchesAtStart(s, i);
      if PrefixAt(s, i) && LastSepFrom(s, i + |Prefix|).Some? {
        assert FindMatchFrom(s, i) == Some((i, LastSepFrom(s, i + |Prefix|).value));
      } else {
        assert FindMatchFrom(s, i) == FindMatchFrom(s, i + 1);
        FindMatchFromIsLeftmost(s, i + 1);
      }
    }
  }

  /** `ExtractIndex` finds nothing exactly when the pattern matches nowhere. */
  lemma ExtractIndexNoneIffNoMatch(s: string)
    ensures ExtractIndex(s).None? <==> forall i, j :: !MatchAt(s, i, j)
  {
    FindMatchFromIsLeftmost(s, 0);
    if FindMatchFrom(s, 0).Some? {
      var (i, j) := FindMatchFrom(s, 0).value;
      assert MatchAt(s, i, j);
    }
  }

  /** What `ExtractIndex` finds stays on one line and sits between the two literals
      somewhere in `s`. */
  lemma ExtractIndexFound(s: string)
    requires ExtractIndex(s).Some?
    ensures '\n' !in ExtractIndex(s).value && Contains(s, Prefix + ExtractIndex(s).value + Sep)
  {
    FindMatchFromIsLeftmost(s, 0);
    var (i, j) := FindMatchFrom(s, 0).value;
    var x := s[i + |Prefix|..j];
    assert ExtractIndex(s).value == x;
    assert s[i..j + |Sep|] == Prefix + x + Sep by {
      assert s[i..j + |Sep|] == s[i..i + |Prefix|] + s[i + |Prefix|..j] + s[j..j + |Sep|];
    }
    assert Prefix + x + Sep <= s[i..];
    assert forall m :: 0 <= m < |x| ==> x[m] == s[i + |Prefix| + m];
  }

  /** The extracted name is exactly the group of RE2's match: whenever `(i, j)` is the
      leftmost, greedy match, `ExtractIndex` returns `s[i + |Prefix| .. j]`, and
      conversely every `Some` result arises from such a match. */
  lemma ExtractIndexIsLeftmostGreedy(s: string, i: int, j: int)
    requires LeftmostGreedy(s, i, j)
    ensures ExtractIndex(s) == Some(s[i + |Prefix|..j])
  {
    FindMatchFromIsLeftmost(s, 0);
    var r := FindMatchFrom(s, 0);
    assert r.Some?;
    assert r.value.0 == i;
  }

  /** Conversely, every extracted name is the group of the leftmost, greedy match. */
  lemma ExtractIndexHasLeftmostGreedyMatch(s: string)
    requires ExtractIndex(s).Some?
    ensures exists i, j :: LeftmostGreedy(s, i, j) && ExtractIndex(s).value == s[i + |Prefix|..j]
  {
    FindMatchFromIsLeftmost(s, 0);
    var (i, j) := FindMatchFrom(s, 0).value;
    assert LeftmostGreedy(s, i, j);
  }

  /** A position where `Sep` cannot start: out of range or not a `]`. */
  lemma NotSepAt(s: string, j: int)
    requires j < 0 || |s| < j + |Sep| || s[j] != ']'
    ensures !SepAt(s, j)
  {
  }

  /** A position where `Prefix` cannot start: out of range or not followed by a `[`
      where the literal ends. */
  lemma NotPrefixAt(s: string, i: int)
    requires i < 0 || |s| < i + |Prefix| || s[i + |Prefix| - 1] != '['
    ensures !PrefixAt(s, i)
  {
  }

  /** A description laid out as `reindex from [x] to <body><tail>`, where `x` stays on one
      line and no later `] to ` can start after it, yields exactly `x`. */
  lemma ExtractFromLayout(x: string, body: string, tail: string)
    requires '\n' !in x && ']' !in body && |tail| < |Sep|
    ensures ExtractIndex(Prefix + x + Sep + body + tail) == Some(x)
  {
    var s := Prefix + x + Sep + body + tail;
    var j := |Prefix| + |x|;
    assert s[..j] == Prefix + x;
    assert s[j..j + |Sep|] == Sep;
    assert s[|Prefix|..j] == x;
    assert MatchAt(s, 0, j);
    forall j' | j < j' ensures !SepAt(s, j') {
      if j' + |Sep| <= |s| {
        if j' < j + |Sep| {
          assert s[j'] == Sep[j' - j];
        } else {
          assert s[j'] == body[j' - j - |Sep|];
        }
      }
      NotSepAt(s, j');
    }
    ExtractIndexIsLeftmostGreedy(s, 0, j);
  }

  /** Without a `[` there is no `reindex from [`, so nothing is extracted. */
  lemma NoBracketNoIndex(s: string)
    requires '[' !in s
    ensures ExtractIndex(s) == None
  {
    forall i ensures !PrefixAt(s, i) {
      NotPrefixAt(s, i);
    }
    ExtractIndexNoneIffNoMatch(s);
  }

  /** `.` does not match a newline: when the only `reindex from [` is followed by a newline
      before any `]`, nothing is extracted. */
  lemma NewlineStopsGroup(x: string, y: string)
    requires '[' !in x && ']' !in x && '[' !in y
    ensures ExtractIndex(Prefix + x + "\n" + y) == None
  {
    var s := Prefix + x + "\n" + y;
    var nl := |Prefix| + |x|;
    assert s[nl] == '\n';
    forall i | i != 0 ensures !PrefixAt(s, i) {
      var b := i + |Prefix| - 1;
      if 0 <= i && b < |s| {
        if b < nl {
          assert s[b] == x[b - |Prefix|];
        } else if b > nl {
          assert s[b] == y[b - nl - 1];
        }
      }
      NotPrefixAt(s, i);
    }
    forall j | |Prefix| <= j < nl ensures !SepAt(s, j) {
      assert s[j] == x[j - |Prefix|];
      NotSepAt(s, j);
    }
    NotSepAt(s, nl);
    forall j | nl < j ensures !OnOneLine(s, |Prefix|, j) {
    }
    ExtractIndexNoneIffNoMatch(s);
  }

  /** The index name in the example documented beside the pattern,
      `staging-index-6d064080943311e9b3cc42010a840084`. */
  const ExampleIndex: string := "staging-index-" + "6d0640809433" + "11e9b3cc4201" + "0a840084"

  /** The example description documented beside the pattern: a reindex of
      `ExampleIndex` into `ExampleIndex` suffixed with `-new1`. */
  const ExampleDescription: string := "reindex from [" + ExampleIndex + "] to [" + ExampleIndex + "-new1]"

  /** The example index name stays on one line and holds no `]`. */
  lemma ExampleIndexIsPlain()
    ensures '\n' !in ExampleIndex && ']' !in ExampleIndex
  {
    var a, b, c, d := "staging-index-", "6d0640809433", "11e9b3cc4201", "0a840084";
    assert '\n' !in a && ']' !in a;
    assert '\n' !in b && ']' !in b;
    assert '\n' !in c && ']' !in c;
    assert '\n' !in d && ']' !in d;
  }

  /** The documented example yields its source index, not the destination. */
  lemma DocumentedExample()
    ensures ExtractIndex(ExampleDescription) == Some(ExampleIndex)
  {
    ExampleIndexIsPlain();
    var body := "[" + ExampleIndex + "-new1";
    assert ']' !in body;
    assert Prefix + ExampleIndex + Sep + body + "]" == ExampleDescription;
    ExtractFromLayout(ExampleIndex, body, "]");
  }

  /** A reindex of `idx-a` into `idx-a-new` reports `idx-a`. */
  lemma IdxAExample()
    ensures ExtractIndex("reindex from [idx-a] to [idx-a-new]") == Some("idx-a")
  {
    var x, body := "idx-a", "[idx-a-new";
    assert '\n' !in x && ']' !in body;
    assert Prefix + x + Sep + body + "]" == "reindex from [idx-a] to [idx-a-new]";
    ExtractFromLayout(x, body, "]");
  }

  /** The group is greedy: with two `] to ` on one line it runs to the second. */
  lemma GreedyExample()
    ensures ExtractIndex("reindex from [a] to [b] to c") == Some("a] to [b")
  {
    ExtractFromLayout("a] to [b", "c", "");
    assert Prefix + "a] to [b" + Sep + "c" + "" == "reindex from [a] to [b] to c";
  }

  /** The group cannot cross a newline to reach a `] to ` on the next line. */
  lemma NewlineExample()
    ensures ExtractIndex("reindex from [a\n] to b") == None
  {
    NewlineStopsGroup("a", "] to b");
    assert Prefix + "a" + "\n" + "] to b" == "reindex from [a\n] to b";
  }

  /** A description that does not follow the pattern yields no index. */
  lemma UnexpectedExample()
    ensures ExtractIndex("something unexpected") == None
  {
    NoBracketNoIndex("something unexpected");
  }
}
