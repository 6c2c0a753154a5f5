/** Levenshtein distance by two rolling rows, against what it means: the least number of
    single-character insertions, deletions and replacements that turn one text into another. */
module EditDistance {
  import opened Numbers

  function Cost(x: char, y: char): nat {
    if x == y then 0 else 1
  }

  /** The table the rows are taken from: Table(a, b, i, j) compares a[..i] with b[..j]. */
  function Table(a: string, b: string, i: nat, j: nat): nat
    requires i <= |a| && j <= |b|
    decreases i + j
  {
    if i == 0 then j
    else if j == 0 then i
    else Min(Min(Table(a, b, i - 1, j) + 1, Table(a, b, i, j - 1) + 1),
             Table(a, b, i - 1, j - 1) + Cost(a[i - 1], b[j - 1]))
  }

  function Distance(a: string, b: string): nat {
    Table(a, b, |a|, |b|)
  }

  method Levenshtein(a: string, b: string) returns (distance: nat)
    ensures distance == Distance(a, b)
  {
    var m, n := |a|, |b|;
    if m == 0 { return n; }
    if n == 0 { return m; }
    var previous := new nat[n + 1](index => index);
    var current := new nat[n + 1](_ => 0);
    assert IsRow(a, b, 0, previous, n + 1);
    var i := 1;
    while i <= m
      invariant 1 <= i <= m + 1
      invariant previous != current && previous.Length == current.Length == n + 1
      invariant fresh(previous) && fresh(current)
      invariant IsRow(a, b, i - 1, previous, n + 1)
    {
      FillRow(a, b, i, previous, current);
      previous, current := current, previous;
      i := i + 1;
    }
    distance := previous[n];
  }

  /** The first n cells of a row of the table. */
  ghost predicate IsRow(a: string, b: string, i: nat, row: array<nat>, n: nat)
    requires i <= |a|
    reads row
  {
    row.Length == |b| + 1 && n <= |b| + 1 && forall k: nat | k < n :: row[k] == Table(a, b, i, k)
  }

  method FillRow(a: string, b: string, i: nat, previous: array<nat>, current: array<nat>)
    requires 1 <= i <= |a| && previous != current && current.Length == |b| + 1
    requires IsRow(a, b, i - 1, previous, |b| + 1)
    modifies current
    ensures IsRow(a, b, i, current, |b| + 1)
  {
    current[0] := i;
    var j := 1;
    while j <= |b|
      invariant 1 <= j <= |b| + 1
      invariant IsRow(a, b, i - 1, previous, |b| + 1)
      invariant IsRow(a, b, i, current, j)
    {
      FillCell(a, b, i, j, previous, current);
      j := j + 1;
    }
  }

  method FillCell(a: string, b: string, i: nat, j: nat, previous: array<nat>, current: array<nat>)
    requires 1 <= i <= |a| && 1 <= j <= |b| && previous != current
    requires IsRow(a, b, i - 1, previous, |b| + 1) && IsRow(a, b, i, current, j)
    modifies current
    ensures IsRow(a, b, i, current, j + 1)
  {
    var cost := Cost(a[i - 1], b[j - 1]);
    var cell := Min(Min(previous[j] + 1, current[j - 1] + 1), previous[j - 1] + cost);
    assert cell == Table(a, b, i, j);
    current[j] := cell;
  }

  // ---------------------------------------------------------------- the same, by recursion on the texts

  function Init(a: string): string
    requires a != []
  {
    a[..|a| - 1]
  }

  function Last(a: string): char
    requires a != []
  {
    a[|a| - 1]
  }

  lemma {:induction false} TableOfPrefixes(a: string, b: string, i: nat, j: nat)
    requires i <= |a| && j <= |b|
    ensures Table(a, b, i, j) == Distance(a[..i], b[..j])
    decreases i + j
  {
    TableOnlyReadsPrefixes(a, b, a[..i], b[..j], i, j);
  }

  lemma {:induction false} TableOnlyReadsPrefixes(a: string, b: string, c: string, d: string, i: nat, j: nat)
    requires i <= |a| && j <= |b| && i <= |c| && j <= |d|
    requires a[..i] == c[..i] && b[..j] == d[..j]
    ensures Table(a, b, i, j) == Table(c, d, i, j)
    decreases i + j
  {
    if i != 0 && j != 0 {
      assert a[i - 1] == a[..i][i - 1] == c[..i][i - 1] == c[i - 1];
      assert b[j - 1] == b[..j][j - 1] == d[..j][j - 1] == d[j - 1];
      assert a[..i - 1] == a[..i][..i - 1] == c[..i][..i - 1] == c[..i - 1];
      assert b[..j - 1] == b[..j][..j - 1] == d[..j][..j - 1] == d[..j - 1];
      TableOnlyReadsPrefixes(a, b, c, d, i - 1, j);
      TableOnlyReadsPrefixes(a, b, c, d, i, j - 1);
      TableOnlyReadsPrefixes(a, b, c, d, i - 1, j - 1);
    }
  }

  lemma InnerDistance(a: string, b: string)
    requires a != [] && b != []
    ensures Distance(a, b) == Min(Min(Distance(Init(a), b) + 1, Distance(a, Init(b)) + 1),
                                  Distance(Init(a), Init(b)) + Cost(Last(a), Last(b)))
  {
    var i, j := |a|, |b|;
    assert a[..i] == a && b[..j] == b;
    TableOfPrefixes(a, b, i - 1, j);
    TableOfPrefixes(a, b, i, j - 1);
    TableOfPrefixes(a, b, i - 1, j - 1);
  }

  lemma DistanceUnfolds(a: string, b: string)
    ensures a == [] ==> Distance(a, b) == |b|
    ensures b == [] ==> Distance(a, b) == |a|
    ensures a != [] && b != [] ==>
              Distance(a, b) == Min(Min(Distance(Init(a), b) + 1, Distance(a, Init(b)) + 1),
                                    Distance(Init(a), Init(b)) + Cost(Last(a), Last(b)))
  {
    if a != [] && b != [] {
      InnerDistance(a, b);
    }
  }

  // ---------------------------------------------------------------- edits

  /** One insertion, deletion or replacement, at one place. */
  ghost predicate EditAt(a: string, b: string, left: string, removed: string, added: string, right: string) {
    && |removed| <= 1 && |added| <= 1
    && a == left + removed + right
    && b == left + added + right
  }

  ghost predicate OneEdit(a: string, b: string) {
    exists left, removed, added, right :: EditAt(a, b, left, removed, added, right)
  }

  /** A script of edits: every text on the way from the first to the last. */
  ghost predicate Script(texts: seq<string>, a: string, b: string) {
    && texts != [] && texts[0] == a && texts[|texts| - 1] == b
    && forall k | 0 <= k < |texts| - 1 :: OneEdit(texts[k], texts[k + 1])
  }

  // ---------------------------------------------------------------- no script is shorter

  lemma {:induction false} SelfDistance(a: string)
    ensures Distance(a, a) == 0
    decreases |a|
  {
    DistanceUnfolds(a, a);
    if a != [] {
      SelfDistance(Init(a));
    }
  }

  /** Taking the last character off, or putting one on, moves the distance by at most one. */
  lemma {:induction false} LastCharacter(a: string, b: string)
    requires a != []
    ensures Distance(a, b) <= Distance(Init(a), b) + 1
    ensures Distance(Init(a), b) <= Distance(a, b) + 1
    decreases |b|
  {
    DistanceUnfolds(a, b);
    DistanceUnfolds(Init(a), b);
    if b != [] {
      LastCharacter(a, Init(b));
    }
  }

  lemma {:induction false} EditMovesDistance(
    left: string, removed: string, added: string, right: string, b: string)
    requires |removed| <= 1 && |added| <= 1
    ensures Distance(left + removed + right, b) <= Distance(left + added + right, b) + 1
    decreases |right|, |b|
  {
    var x, y := left + removed + right, left + added + right;
    DistanceUnfolds(x, b);
    DistanceUnfolds(y, b);
    if right == [] {
      if removed != [] {
        assert Init(x) == left;
        LastCharacter(x, b);
      } else {
        assert x == left;
      }
      if added != [] {
        assert Init(y) == left;
        LastCharacter(y, b);
      } else {
        assert y == left;
      }
      if removed != [] && added != [] && b != [] {
        EditMovesDistance(left, removed, added, right, Init(b));
      }
    } else {
      assert Init(x) == left + removed + Init(right);
      assert Init(y) == left + added + Init(right);
      EditMovesDistance(left, removed, added, Init(right), b);
      if b != [] {
        EditMovesDistance(left, removed, added, Init(right), Init(b));
        EditMovesDistance(left, removed, added, right, Init(b));
      }
    }
  }

  /** However one text is edited into another, it takes at least Distance edits. */
  lemma {:induction false} NoScriptIsShorter(texts: seq<string>, a: string, b: string)
    requires Script(texts, a, b)
    ensures Distance(a, b) <= |texts| - 1
    decreases |texts|
  {
    if |texts| == 1 {
      SelfDistance(a);
    } else {
      var next := texts[1];
      assert OneEdit(texts[0], texts[0 + 1]);
      var left, removed, added, right :| EditAt(a, next, left, removed, added, right);
      EditMovesDistance(left, removed, added, right, b);
      assert Script(texts[1..], next, b) by {
        forall k | 0 <= k < |texts[1..]| - 1 ensures OneEdit(texts[1..][k], texts[1..][k + 1]) {
          assert OneEdit(texts[k + 1], texts[k + 1 + 1]);
        }
      }
      NoScriptIsShorter(texts[1..], next, b);
    }
  }

  // ---------------------------------------------------------------- one is that short

  lemma {:induction false} BestScript(a: string, b: string) returns (texts: seq<string>)
    ensures Script(texts, a, b) && |texts| == Distance(a, b) + 1
    decreases |a| + |b|
  {
    DistanceUnfolds(a, b);
    if a == [] && b == [] {
      texts := [a];
    } else if a != [] && (b == [] || Distance(a, b) == Distance(Init(a), b) + 1) {
      DistanceUnfolds(Init(a), b);
      var rest := BestScript(Init(a), b);
      assert EditAt(a, Init(a), Init(a), [Last(a)], [], []);
      texts := Before(a, rest, Init(a), b);
    } else if b != [] && (a == [] || Distance(a, b) == Distance(a, Init(b)) + 1) {
      DistanceUnfolds(a, Init(b));
      var rest := BestScript(a, Init(b));
      assert EditAt(Init(b), b, Init(b), [], [Last(b)], []);
      texts := After(rest, a, Init(b), b);
    } else {
      var shorter := BestScript(Init(a), Init(b));
      var same := Keep(shorter, Init(a), Init(b), Last(a));
      assert Init(a) + [Last(a)] == a && Init(b) + [Last(b)] == b;
      if Last(a) == Last(b) {
        texts := same;
      } else {
        assert EditAt(Init(b) + [Last(a)], b, Init(b), [Last(a)], [Last(b)], []);
        texts := After(same, a, Init(b) + [Last(a)], b);
      }
    }
  }

  lemma Before(a: string, texts: seq<string>, b: string, c: string) returns (longer: seq<string>)
    requires OneEdit(a, b) && Script(texts, b, c)
    ensures Script(longer, a, c) && |longer| == |texts| + 1
  {
    longer := [a] + texts;
    forall k | 0 <= k < |longer| - 1 ensures OneEdit(longer[k], longer[k + 1]) {
      if k > 0 {
        assert OneEdit(texts[k - 1], texts[k - 1 + 1]);
      }
    }
  }

  lemma After(texts: seq<string>, a: string, b: string, c: string) returns (longer: seq<string>)
    requires Script(texts, a, b) && OneEdit(b, c)
    ensures Script(longer, a, c) && |longer| == |texts| + 1
  {
    longer := texts + [c];
    forall k | 0 <= k < |longer| - 1 ensures OneEdit(longer[k], longer[k + 1]) {
      if k < |texts| - 1 {
        assert OneEdit(texts[k], texts[k + 1]);
      }
    }
  }

  /** The same edits in front of one more character. */
  lemma Keep(texts: seq<string>, a: string, b: string, last: char) returns (longer: seq<string>)
    requires Script(texts, a, b)
    ensures Script(longer, a + [last], b + [last]) && |longer| == |texts|
  {
    longer := seq(|texts|, k requires 0 <= k < |texts| => texts[k] + [last]);
    forall k | 0 <= k < |longer| - 1 ensures OneEdit(longer[k], longer[k + 1]) {
      assert OneEdit(texts[k], texts[k + 1]);
      var left, removed, added, right :| EditAt(texts[k], texts[k + 1], left, removed, added, right);
      assert EditAt(longer[k], longer[k + 1], left, removed, added, right + [last]);
    }
  }

  // ---------------------------------------------------------------- lengths

  /** Each edit changes the length by at most one, so lengths bound the distance from below. */
  lemma {:induction false} LengthsBoundDistance(a: string, b: string)
    ensures |a| - |b| <= Distance(a, b) && |b| - |a| <= Distance(a, b)
    ensures Distance(a, b) == 0 <==> a == b
    decreases |a| + |b|
  {
    DistanceUnfolds(a, b);
    if a != [] && b != [] {
      LengthsBoundDistance(Init(a), b);
      LengthsBoundDistance(a, Init(b));
      LengthsBoundDistance(Init(a), Init(b));
      assert Init(a) + [Last(a)] == a && Init(b) + [Last(b)] == b;
      if a == b {
        SelfDistance(a);
      }
    }
  }
}
