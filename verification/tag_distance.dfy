/** An edit distance over tag lists, offered as one instance of the ranker's
    distance parameter. The utility the service calls is not part of this
    model; this definition is the standard Levenshtein distance over the
    sequence of tags (whole tags are the symbols), which is an assumption
    about that utility. Nothing in the ranker depends on it. */
module TagDistance {

  function Min3(a: nat, b: nat, c: nat): (m: nat)
    ensures m <= a && m <= b && m <= c
    ensures m == a || m == b || m == c
  {
    if a <= b && a <= c then a else if b <= c then b else c
  }

  /** The fewest single-tag insertions, deletions and substitutions that
      turn one tag list into the other, by the usual table recurrence over
      the two lists' prefixes. */
  function EditDistance(a: seq<string>, b: seq<string>): nat
    decreases |a| + |b|
  {
    if |a| == 0 then |b|
    else if |b| == 0 then |a|
    else
      var m, n := |a| - 1, |b| - 1;
      Min3(EditDistance(a[..m], b) + 1,
           EditDistance(a, b[..n]) + 1,
           EditDistance(a[..m], b[..n]) + (if a[m] == b[n] then 0 else 1))
  }

  /** For two non-empty lists the distance is no more than any of the
      three ways to treat their last tags: delete, insert, or
      keep/substitute. */
  lemma EditStepAtMost(a: seq<string>, b: seq<string>)
    requires |a| > 0 && |b| > 0
    ensures var m, n := |a| - 1, |b| - 1;
      && EditDistance(a, b) <= EditDistance(a[..m], b) + 1
      && EditDistance(a, b) <= EditDistance(a, b[..n]) + 1
      && EditDistance(a, b) <= EditDistance(a[..m], b[..n]) + (if a[m] == b[n] then 0 else 1)
  {
  }

  /** ... and it is one of them. */
  lemma EditStepAttained(a: seq<string>, b: seq<string>)
    requires |a| > 0 && |b| > 0
    ensures var m, n := |a| - 1, |b| - 1;
      || EditDistance(a, b) == EditDistance(a[..m], b) + 1
      || EditDistance(a, b) == EditDistance(a, b[..n]) + 1
      || EditDistance(a, b) == EditDistance(a[..m], b[..n]) + (if a[m] == b[n] then 0 else 1)
  {
  }

  /** The difference of two lengths. */
  function Gap(x: nat, y: nat): nat {
    if x >= y then x - y else y - x
  }

  /** A list is at distance zero from itself. */
  lemma {:induction false} EditDistanceSelf(a: seq<string>)
    ensures EditDistance(a, a) == 0
    decreases |a|
  {
    if |a| > 0 {
      EditDistanceSelf(a[..|a| - 1]);
    }
  }

  /** Distance zero holds only between identical lists. */
  lemma {:induction false} EditDistanceZero(a: seq<string>, b: seq<string>)
    requires EditDistance(a, b) == 0
    ensures a == b
    decreases |a| + |b|
  {
    if |a| > 0 && |b| > 0 {
      var m, n := |a| - 1, |b| - 1;
      EditStepAttained(a, b);
      assert EditDistance(a[..m], b[..n]) == 0 && a[m] == b[n];
      EditDistanceZero(a[..m], b[..n]);
      assert a == a[..m] + [a[m]] && b == b[..n] + [b[n]];
    }
  }

  /** The distance does not depend on which list is the caller's. */
  lemma {:induction false} EditDistanceSymmetric(a: seq<string>, b: seq<string>)
    ensures EditDistance(a, b) == EditDistance(b, a)
    decreases |a| + |b|
  {
    if |a| > 0 && |b| > 0 {
      var m, n := |a| - 1, |b| - 1;
      EditDistanceSymmetric(a[..m], b);
      EditDistanceSymmetric(a, b[..n]);
      EditDistanceSymmetric(a[..m], b[..n]);
    }
  }

  /** The distance is at most the longer length. */
  lemma {:induction false} EditDistanceUpper(a: seq<string>, b: seq<string>)
    ensures EditDistance(a, b) <= if |a| >= |b| then |a| else |b|
    decreases |a| + |b|
  {
    if |a| > 0 && |b| > 0 {
      EditStepAtMost(a, b);
      EditDistanceUpper(a[..|a| - 1], b[..|b| - 1]);
    }
  }

  /** The distance is at least the difference of the lengths. */
  lemma {:induction false} EditDistanceLower(a: seq<string>, b: seq<string>)
    ensures EditDistance(a, b) >= Gap(|a|, |b|)
    decreases |a| + |b|
  {
    if |a| > 0 && |b| > 0 {
      var m, n := |a| - 1, |b| - 1;
      var d := EditDistance(a, b);
      EditStepAttained(a, b);
      if d == EditDistance(a[..m], b) + 1 {
        EditDistanceLower(a[..m], b);
      } else if d == EditDistance(a, b[..n]) + 1 {
        EditDistanceLower(a, b[..n]);
      } else {
        EditDistanceLower(a[..m], b[..n]);
      }
    }
  }

  /** Lists that differ in one middle tag are one substitution apart. */
  lemma OneTagApart()
    ensures EditDistance(["Java", "男", "后端"], ["Java", "女", "后端"]) == 1
  {
    var a, b := ["Java", "男", "后端"], ["Java", "女", "后端"];
    assert a[..2] == ["Java", "男"] && b[..2] == ["Java", "女"];
    assert a[..2][..1] == ["Java"] && b[..2][..1] == ["Java"];
    assert ["Java"][..0] == [];
    EditStepAtMost(["Java"], ["Java"]);
    EditStepAtMost(a[..2], b[..2]);
    EditStepAtMost(a, b);
    if EditDistance(a, b) == 0 {
      EditDistanceZero(a, b);
    }
  }

  /** Swapping the first two of three tags costs at most two edits: the
      distance counts positions, not shared tags. */
  lemma SwapCostsTwo()
    ensures EditDistance(["Java", "男", "后端"], ["男", "Java", "后端"]) <= 2
  {
    var a, b := ["Java", "男", "后端"], ["男", "Java", "后端"];
    assert a[..2] == ["Java", "男"] && b[..2] == ["男", "Java"];
    assert a[..2][..1] == ["Java"] && b[..2][..1] == ["男"];
    assert ["Java"][..0] == [] && ["男"][..0] == [];
    EditStepAtMost(["Java"], ["男"]);
    EditStepAtMost(a[..2], b[..2]);
    EditStepAtMost(a, b);
  }
}
