/** The prompt history of the image generator: a short list of the most
    recently used prompts, newest first, with no prompt listed twice.

    `Record` is the update run after every successful generation; `Recent`
    is an independent description of what the list should hold (the distinct
    prompts of a session ordered by their last use), and `HistoryIsRecent`
    proves that recording prompts one after another yields exactly the first
    `Capacity` entries of it.
 */
module PromptHistory {

  /** How many prompts the history keeps (the `.slice(0, 3)` of the update). */
  const Capacity: nat := 3

  /** No prompt occurs twice in `s`. */
  predicate NoDuplicates(s: seq<string>) {
    forall i, j :: 0 <= i < j < |s| ==> s[i] != s[j]
  }

  /** `a` is obtained from `b` by deleting entries, keeping the rest in order. */
  predicate IsSubsequence(a: seq<string>, b: seq<string>)
    decreases |b|
  {
    if a == [] then true
    else if b == [] then false
    else if a[0] == b[0] then IsSubsequence(a[1..], b[1..])
    else IsSubsequence(a, b[1..])
  }

  /** The first `n` entries of `s`, or all of it when it is shorter
      (JavaScript's `s.slice(0, n)` for `n >= 0`). */
  function Take(s: seq<string>, n: nat): seq<string>
  {
    if |s| <= n then s else s[..n]
  }

  /** `s` with every occurrence of `p` removed, the other entries in order
      (the `prev.filter((h) => h !== currentPrompt)` of the update). */
  function Without(s: seq<string>, p: string): (r: seq<string>)
    ensures forall x :: x in r <==> x in s && x != p
    ensures |r| <= |s|
    ensures p !in s ==> r == s
  {
    if s == [] then []
    else if s[0] == p then Without(s[1..], p)
    else [s[0]] + Without(s[1..], p)
  }

  /** The history after `p` has been used successfully: `p` in front, the
      previous entries other than `p` after it, cut to `Capacity` entries. */
  function Record(history: seq<string>, p: string): (r: seq<string>)
    ensures 0 < |r| <= Capacity
    ensures r[0] == p
    ensures forall x :: x in r ==> x == p || x in history
    ensures NoDuplicates(history) ==> NoDuplicates(r)
    ensures p !in history ==> r == Take([p] + history, Capacity)
    ensures p in history && NoDuplicates(history) && |history| <= Capacity ==>
              |r| == |history| && forall x :: x in history ==> x in r
  {
    WithoutKeepsNoDuplicates(history, p);
    WithoutDropsOne(history, p);
    Take([p] + Without(history, p), Capacity)
  }

  /** Putting an absent prompt in front keeps a list duplicate-free. */
  lemma NoDuplicatesCons(x: string, s: seq<string>)
    requires x !in s && NoDuplicates(s)
    ensures NoDuplicates([x] + s)
  {
  }

  /** The first entry of a duplicate-free list does not occur again. */
  lemma NoDuplicatesTail(s: seq<string>)
    requires |s| > 0 && NoDuplicates(s)
    ensures s[0] !in s[1..] && NoDuplicates(s[1..])
  {
  }

  /** Taking one more entry from the front of `[x] + s` takes `x`. */
  lemma TakeCons(x: string, s: seq<string>, n: nat)
    ensures Take([x] + s, n + 1) == [x] + Take(s, n)
  {
  }

  /** `NoDuplicates`, stated entry by entry from the front. The recursive
      form unfolds one entry at a time, which keeps the induction in
      `TakeWithout` cheap for the solver; `NoDuplicatesDistinct` links the
      two statements. */
  predicate Distinct(t: seq<string>) {
    t == [] || (t[0] !in t[1..] && Distinct(t[1..]))
  }

  /** The two statements of distinctness agree. */
  lemma {:induction false} NoDuplicatesDistinct(s: seq<string>)
    requires NoDuplicates(s)
    ensures Distinct(s)
    decreases |s|
  {
    if s != [] {
      NoDuplicatesTail(s);
      NoDuplicatesDistinct(s[1..]);
    }
  }

  /** Filtering never introduces a duplicate. */
  lemma {:induction false} WithoutKeepsNoDuplicates(s: seq<string>, p: string)
    ensures NoDuplicates(s) ==> NoDuplicates(Without(s, p))
    decreases |s|
  {
    if s != [] && NoDuplicates(s) {
      NoDuplicatesTail(s);
      WithoutKeepsNoDuplicates(s[1..], p);
      if s[0] != p {
        NoDuplicatesCons(s[0], Without(s[1..], p));
      }
    }
  }

  /** Filtering removes every copy of `p` and nothing else: each other prompt
      keeps its number of occurrences. */
  lemma {:induction false} WithoutContents(s: seq<string>, p: string)
    ensures multiset(Without(s, p)) == multiset(s)[p := 0]
    decreases |s|
  {
    if s != [] {
      assert s == [s[0]] + s[1..];
      WithoutContents(s[1..], p);
      assert multiset(s) == multiset{s[0]} + multiset(s[1..]);
    }
  }

  /** In a duplicate-free list, a present prompt is removed exactly once. */
  lemma {:induction false} WithoutDropsOne(s: seq<string>, p: string)
    ensures NoDuplicates(s) && p in s ==> |Without(s, p)| == |s| - 1
    decreases |s|
  {
    if NoDuplicates(s) && p in s {
      NoDuplicatesTail(s);
      if s[0] != p {
        WithoutDropsOne(s[1..], p);
      }
    }
  }

  /** Filtering distributes over concatenation. */
  lemma {:induction false} WithoutAppend(a: seq<string>, b: seq<string>, p: string)
    ensures Without(a + b, p) == Without(a, p) + Without(b, p)
    decreases |a|
  {
    if a == [] {
      assert a + b == b;
    } else {
      assert (a + b)[0] == a[0] && (a + b)[1..] == a[1..] + b;
      WithoutAppend(a[1..], b, p);
    }
  }

  /** A subsequence of the tail is a subsequence of the whole list. */
  lemma {:induction false} SubsequenceOfTail(a: seq<string>, b: seq<string>)
    requires |b| > 0 && IsSubsequence(a, b[1..])
    ensures IsSubsequence(a, b)
    decreases |b|, 0
  {
    if a != [] && a[0] == b[0] {
      SubsequenceDropHead(a, b[1..]);
    }
  }

  /** Dropping the first entry of a subsequence leaves a subsequence. */
  lemma {:induction false} SubsequenceDropHead(a: seq<string>, b: seq<string>)
    requires |a| > 0 && IsSubsequence(a, b)
    ensures IsSubsequence(a[1..], b)
    decreases |b|, 1
  {
    assert b != [];
    if a[0] != b[0] {
      SubsequenceDropHead(a, b[1..]);
    }
    if a[1..] != [] {
      SubsequenceOfTail(a[1..], b);
    }
  }

  /** Filtering keeps the surviving entries in their original order. */
  lemma {:induction false} WithoutIsSubsequence(s: seq<string>, p: string)
    ensures IsSubsequence(Without(s, p), s)
    decreases |s|
  {
    if s != [] {
      WithoutIsSubsequence(s[1..], p);
      if s[0] == p {
        SubsequenceOfTail(Without(s, p), s);
      } else {
        assert ([s[0]] + Without(s[1..], p))[1..] == Without(s[1..], p);
      }
    }
  }

  /** A prefix of a subsequence is a subsequence. */
  lemma {:induction false} PrefixIsSubsequence(a: seq<string>, b: seq<string>, n: nat)
    requires IsSubsequence(a, b) && n <= |a|
    ensures IsSubsequence(a[..n], b)
    decreases |b|
  {
    if n > 0 {
      assert b != [];
      if a[0] == b[0] {
        assert a[..n][1..] == a[1..][..n - 1];
        PrefixIsSubsequence(a[1..], b[1..], n - 1);
      } else {
        PrefixIsSubsequence(a, b[1..], n);
      }
    }
  }

  /** Apart from the new prompt in front, the history keeps the entries it
      had, in the order it had them: recording only deletes and prepends. */
  lemma RecordKeepsOrder(history: seq<string>, p: string)
    ensures IsSubsequence(Record(history, p)[1..], history)
  {
    var rest := Without(history, p);
    var r := Record(history, p);
    WithoutIsSubsequence(history, p);
    assert r[1..] == rest[..|r| - 1];
    PrefixIsSubsequence(rest, history, |r| - 1);
  }

  /** Recording the same prompt twice in a row is the same as recording it once. */
  lemma RecordIdempotent(history: seq<string>, p: string)
    ensures Record(Record(history, p), p) == Record(history, p)
  {
  }

  /** The two cases the history is meant for: a re-used prompt moves to the
      front instead of appearing twice, and a new prompt on a full history
      pushes out the oldest entry only. */
  lemma RecordExamples()
    ensures Record(["b", "a"], "a") == ["a", "b"]
    ensures Record(["c", "b", "a"], "d") == ["d", "c", "b"]
  {
  }

  /** The history after a session in which the prompts of `log` were
      generated successfully, oldest first, starting from the empty history. */
  function HistoryAfter(log: seq<string>): seq<string>
  {
    if log == [] then [] else Record(HistoryAfter(log[..|log| - 1]), log[|log| - 1])
  }

  /** Reference description of the history: every prompt of `log` once,
      ordered by its last use, the most recent first. It is built from the
      oldest end: a prompt used again later is skipped, otherwise it goes
      behind everything used after it. */
  function Recent(log: seq<string>): (r: seq<string>)
    ensures forall x :: x in r <==> x in log
    ensures NoDuplicates(r)
  {
    if log == [] then []
    else if log[0] in log[1..] then Recent(log[1..])
    else
      var rest := Recent(log[1..]);
      NoDuplicatesAppend(rest, log[0]);
      rest + [log[0]]
  }

  /** Index of the last use of `x` in `log`, or -1 when it is never used. */
  function LastUse(log: seq<string>, x: string): (r: int)
    ensures -1 <= r < |log|
    ensures r == -1 <==> x !in log
    ensures r >= 0 ==> log[r] == x && x !in log[r + 1..]
  {
    if log == [] then -1
    else if x in log[1..] then 1 + LastUse(log[1..], x)
    else if log[0] == x then 0
    else -1
  }

  /** `r` lists prompts of `log` by last use: an entry nearer the front was
      used more recently than every entry behind it. */
  predicate OrderedByLastUse(log: seq<string>, r: seq<string>) {
    forall i, j :: 0 <= i < j < |r| ==> LastUse(log, r[i]) > LastUse(log, r[j])
  }

  /** The reference order is by last use. */
  lemma {:induction false} RecentOrderedByLastUse(log: seq<string>)
    ensures OrderedByLastUse(log, Recent(log))
    decreases |log|
  {
    if log != [] {
      var u := log[1..];
      RecentOrderedByLastUse(u);
      var r, ru := Recent(log), Recent(u);
      assert forall x :: x in ru ==> LastUse(log, x) == 1 + LastUse(u, x);
      forall i, j | 0 <= i < j < |r|
        ensures LastUse(log, r[i]) > LastUse(log, r[j])
      {
        assert r[i] == ru[i];
        assert ru[i] in ru;
        if j < |ru| {
          assert r[j] == ru[j] && ru[j] in ru;
        } else {
          assert r[j] == log[0] && log[0] !in u;
        }
      }
    }
  }

  /** Putting an absent prompt at the end keeps a list duplicate-free. */
  lemma NoDuplicatesAppend(s: seq<string>, x: string)
    requires x !in s && NoDuplicates(s)
    ensures NoDuplicates(s + [x])
  {
  }

  /** Using `p` once more moves it to the front of the reference order. */
  lemma {:induction false} RecentSnoc(log: seq<string>, p: string)
    ensures Recent(log + [p]) == [p] + Without(Recent(log), p)
    decreases |log|
  {
    if log == [] {
      assert [] + [p] == [p];
    } else {
      var x, u := log[0], log[1..];
      var later := log + [p];
      assert later[0] == x && later[1..] == u + [p];
      RecentSnoc(u, p);
      if x in u {
        assert x in u + [p];
      } else if x == p {
        assert x in u + [p];
        WithoutAppend(Recent(u), [x], p);
        assert Without([x], p) == [];
        assert Without(Recent(log), p) == Without(Recent(u), p);
      } else {
        assert x !in u + [p];
        WithoutAppend(Recent(u), [x], p);
        assert Without([x], p) == [x];
        calc {
          Recent(later);
          Recent(u + [p]) + [x];
          [p] + Without(Recent(u), p) + [x];
          [p] + Without(Recent(u) + [x], p);
          [p] + Without(Recent(log), p);
        }
      }
    }
  }

  /** Filtering looks at the first entry first. */
  lemma WithoutCons(x: string, s: seq<string>, p: string)
    ensures Without([x] + s, p) == if x == p then Without(s, p) else [x] + Without(s, p)
  {
    assert ([x] + s)[0] == x && ([x] + s)[1..] == s;
  }

  /** Taking entries from a non-empty list takes its first entry first. */
  lemma TakeHead(t: seq<string>, n: nat)
    requires t != [] && n > 0
    ensures Take(t, n) == [t[0]] + Take(t[1..], n - 1)
  {
    assert t == [t[0]] + t[1..];
  }

  /** Cutting `t` to `m` entries before filtering out `p` leaves the first
      `k` survivors as they are. */
  predicate CutThenFilter(t: seq<string>, p: string, m: nat, k: nat) {
    Take(Without(Take(t, m), p), k) == Take(Without(t, p), k)
  }

  /** A first entry other than the filtered prompt survives in front. */
  lemma TakeWithoutPastHead(t: seq<string>, p: string, m: nat, k: nat)
    requires t != [] && t[0] != p && 0 < k < m
    requires CutThenFilter(t[1..], p, m - 1, k - 1)
    ensures Take(Without(Take(t, m), p), k) == Take(Without(t, p), k)
  {
    var x, u := t[0], t[1..];
    var h := Take(u, m - 1);
    TakeHead(t, m);
    WithoutCons(x, h, p);
    calc {
      Take(Without(Take(t, m), p), k);
      Take(Without([x] + h, p), k);
      Take([x] + Without(h, p), k);
      { TakeCons(x, Without(h, p), k - 1); }
      [x] + Take(Without(h, p), k - 1);
      [x] + Take(Without(u, p), k - 1);
      { TakeCons(x, Without(u, p), k - 1); }
      Take([x] + Without(u, p), k);
      Take(Without(t, p), k);
    }
  }

  /** Cutting a duplicate-free list to more than `k` entries before
      filtering does not change the first `k` survivors. This is why the
      history may be cut at every step without losing an entry a later step
      would show. */
  lemma {:induction false} TakeWithout(t: seq<string>, p: string, m: nat, k: nat)
    requires Distinct(t) && k < m
    ensures CutThenFilter(t, p, m, k)
    decreases |t|
  {
    if t != [] && t[0] != p && k > 0 {
      TakeWithout(t[1..], p, m - 1, k - 1);
      TakeWithoutPastHead(t, p, m, k);
    } else {
      TakeWithoutBase(t, p, m, k);
    }
  }

  /** The cases of `TakeWithout` that need no induction: an empty list,
      nothing to keep, or the filtered prompt in front (then it is the only
      copy, and cutting after it is the same as cutting before it). */
  lemma TakeWithoutBase(t: seq<string>, p: string, m: nat, k: nat)
    requires Distinct(t) && k < m
    requires t == [] || t[0] == p || k == 0
    ensures Take(Without(Take(t, m), p), k) == Take(Without(t, p), k)
  {
  }

  /** The history always lists the `Capacity` most recently generated
      distinct prompts, newest first. */
  lemma {:induction false} HistoryIsRecent(log: seq<string>)
    ensures HistoryAfter(log) == Take(Recent(log), Capacity)
    decreases |log|
  {
    if log != [] {
      var front, p := log[..|log| - 1], log[|log| - 1];
      assert log == front + [p];
      HistoryIsRecent(front);
      RecentSnoc(front, p);
      var t := Recent(front);
      NoDuplicatesDistinct(t);
      TakeWithout(t, p, Capacity, Capacity - 1);
      calc {
        HistoryAfter(log);
        Record(Take(t, Capacity), p);
        Take([p] + Without(Take(t, Capacity), p), Capacity);
        [p] + Take(Without(Take(t, Capacity), p), Capacity - 1);
        [p] + Take(Without(t, p), Capacity - 1);
        Take([p] + Without(t, p), Capacity);
        Take(Recent(log), Capacity);
      }
    }
  }
}
