/**
 * Token-level matching of the address search engine: the edit budget of a
 * token, the bounded Levenshtein distance with its early exit, the greedy
 * in-order matching of query tokens into a line's tokens, the filter that
 * drops street-type words, bare numbers and one-letter tokens, and the
 * token-window check for a house number.
 */
module AddressTokens {
  import opened JsStrings

  // ---------------------------------------------------------------------
  // Edit distance

  function Min3(x: nat, y: nat, z: nat): (m: nat)
    ensures m <= x && m <= y && m <= z
    ensures m == x || m == y || m == z
  {
    if x <= y && x <= z then x else if y <= z then y else z
  }

  /** The Levenshtein distance between the first `i` characters of `a` and the first `j` of `b`. */
  function Lev(a: string, b: string, i: nat, j: nat): nat
    requires i <= |a| && j <= |b|
    decreases i + j
  {
    if i == 0 then j
    else if j == 0 then i
    else Min3(Lev(a, b, i - 1, j) + 1, Lev(a, b, i, j - 1) + 1,
              Lev(a, b, i - 1, j - 1) + (if a[i - 1] == b[j - 1] then 0 else 1))
  }

  function EditDistance(a: string, b: string): nat
  {
    Lev(a, b, |a|, |b|)
  }

  /** The distance is at least the difference in length. */
  lemma {:induction false} LevAtLeastLengthGap(a: string, b: string, i: nat, j: nat)
    requires i <= |a| && j <= |b|
    ensures Lev(a, b, i, j) >= i - j && Lev(a, b, i, j) >= j - i
    decreases i + j
  {
    if i > 0 && j > 0 {
      LevAtLeastLengthGap(a, b, i - 1, j);
      LevAtLeastLengthGap(a, b, i, j - 1);
      LevAtLeastLengthGap(a, b, i - 1, j - 1);
    }
  }

  /** A string is at distance 0 from itself. */
  lemma {:induction false} LevSelfZero(a: string, i: nat)
    requires i <= |a|
    ensures Lev(a, a, i, i) == 0
  {
    if i > 0 {
      LevSelfZero(a, i - 1);
    }
  }

  /** Row `i` of the table: the distances from `a[..i]` to every prefix of `b`. */
  ghost predicate IsRow(a: string, b: string, i: nat, row: seq<int>)
    requires i <= |a|
  {
    |row| == |b| + 1 && forall j :: 0 <= j <= |b| ==> row[j] == Lev(a, b, i, j)
  }

  /** A lower bound on a whole row also bounds the next row. */
  lemma {:induction false} NextRowBound(a: string, b: string, i: nat, m: int, j: nat)
    requires i < |a| && j <= |b|
    requires forall k :: 0 <= k <= |b| ==> Lev(a, b, i, k) >= m
    ensures Lev(a, b, i + 1, j) >= m
    decreases j
  {
    if j > 0 {
      NextRowBound(a, b, i, m, j - 1);
      assert Lev(a, b, i, j) >= m && Lev(a, b, i, j - 1) >= m;
    } else {
      assert Lev(a, b, i, 0) >= m;
    }
  }

  /** Once every entry of a row exceeds the bound, so does the final distance: the early exit is safe. */
  lemma {:induction false} RowBoundPersists(a: string, b: string, i: nat, m: int)
    requires i <= |a|
    requires forall k :: 0 <= k <= |b| ==> Lev(a, b, i, k) >= m
    ensures EditDistance(a, b) >= m
    decreases |a| - i
  {
    if i < |a| {
      var next := i + 1;
      forall k | 0 <= k <= |b| ensures Lev(a, b, next, k) >= m {
        NextRowBound(a, b, i, m, k);
      }
      RowBoundPersists(a, b, next, m);
    }
  }

  /** One pass of the inner loop of `_token_distance`: row `i + 1` from row `i`, and its minimum. */
  method NextRow(a: string, b: string, i: nat, previous: seq<int>) returns (current: seq<int>, minRow: int)
    requires i < |a| && IsRow(a, b, i, previous)
    ensures IsRow(a, b, i + 1, current)
    ensures forall k :: 0 <= k <= |b| ==> minRow <= current[k]
    ensures exists k :: 0 <= k <= |b| && minRow == current[k]
  {
    var ca := a[i];
    current := [i + 1];
    minRow := current[0];
    var j := 0;
    while j < |b|
      invariant 0 <= j <= |b|
      invariant |current| == j + 1
      invariant RowPrefix(a, b, i + 1, current)
      invariant AtMostAll(minRow, current)
      invariant exists k :: 0 <= k < |current| && minRow == current[k]
    {
      var cost := if ca == b[j] then 0 else 1;
      var cell := Min3(previous[j + 1] + 1, current[j] + 1, previous[j] + cost);
      LevCell(a, b, i, j);
      assert cell == Lev(a, b, i + 1, j + 1);
      ExtendRowPrefix(a, b, i + 1, current, cell);
      ExtendAtMostAll(minRow, current, cell);
      current := current + [cell];
      if cell < minRow {
        minRow := cell;
      }
      j := j + 1;
    }
  }

  /** `m` is at most every entry of `s`. */
  predicate AtMostAll(m: int, s: seq<int>)
  {
    forall k :: 0 <= k < |s| ==> m <= s[k]
  }

  lemma ExtendAtMostAll(m: int, s: seq<int>, c: int)
    requires AtMostAll(m, s)
    ensures AtMostAll(if c < m then c else m, s + [c])
  {
  }

  /** The first `|row|` entries of row `i`. */
  ghost predicate RowPrefix(a: string, b: string, i: nat, row: seq<int>)
    requires i <= |a|
  {
    |row| <= |b| + 1 && forall k :: 0 <= k < |row| ==> row[k] == Lev(a, b, i, k)
  }

  lemma ExtendRowPrefix(a: string, b: string, i: nat, row: seq<int>, cell: int)
    requires i <= |a| && RowPrefix(a, b, i, row) && |row| <= |b| && cell == Lev(a, b, i, |row|)
    ensures RowPrefix(a, b, i, row + [cell])
  {
  }

  /** One cell of the table from its three neighbours. */
  lemma LevCell(a: string, b: string, i: nat, j: nat)
    requires i < |a| && j < |b|
    ensures Lev(a, b, i + 1, j + 1)
      == Min3(Lev(a, b, i, j + 1) + 1, Lev(a, b, i + 1, j) + 1, Lev(a, b, i, j) + (if a[i] == b[j] then 0 else 1))
  {
  }

  /** `_token_distance`: the Levenshtein distance, row by row, giving up with `maxEdits + 1` when the
      lengths differ by more than `maxEdits` or when a whole row exceeds it. */
  method TokenDistance(a: string, b: string, maxEdits: int) returns (d: int)
    ensures d == EditDistance(a, b) || (d == maxEdits + 1 && EditDistance(a, b) > maxEdits)
    ensures (|a| - |b| > maxEdits || |b| - |a| > maxEdits) ==> d == maxEdits + 1
  {
    if |a| - |b| > maxEdits || |b| - |a| > maxEdits {
      LevAtLeastLengthGap(a, b, |a|, |b|);
      return maxEdits + 1;
    }
    var previous: seq<int> := seq(|b| + 1, j => j);
    var i := 0;
    while i < |a|
      invariant 0 <= i <= |a|
      invariant IsRow(a, b, i, previous)
    {
      var current, minRow := NextRow(a, b, i, previous);
      if minRow > maxEdits {
        RowBoundPersists(a, b, i + 1, minRow);
        return maxEdits + 1;
      }
      previous := current;
      i := i + 1;
    }
    return previous[|b|];
  }

  /** `_token_distance` is within the budget exactly when the edit distance is, and then equals it. */
  lemma DistanceWithinBudget(a: string, b: string, maxEdits: int, d: int)
    requires d == EditDistance(a, b) || (d == maxEdits + 1 && EditDistance(a, b) > maxEdits)
    ensures d <= maxEdits <==> EditDistance(a, b) <= maxEdits
    ensures d <= maxEdits ==> d == EditDistance(a, b)
  {
  }

  // ---------------------------------------------------------------------
  // Token matching

  /** `_max_token_edits`: one edit for tokens of up to four characters, two for longer ones. */
  function MaxTokenEdits(token: string): nat
  {
    if |token| <= 4 then 1 else 2
  }

  /** `candidate` is within the edit budget of `token`; the budget depends on `token` alone. */
  ghost predicate IsMatch(token: string, candidate: string)
  {
    EditDistance(token, candidate) <= MaxTokenEdits(token)
  }

  lemma TokenMatchesItself(t: string)
    ensures IsMatch(t, t)
  {
    LevSelfZero(t, |t|);
  }

  /** `_token_is_match`. */
  method TokenIsMatch(token: string, candidate: string) returns (r: bool)
    ensures r <==> IsMatch(token, candidate)
    ensures |token| <= 4 ==> (r <==> EditDistance(token, candidate) <= 1)
    ensures |token| > 4 ==> (r <==> EditDistance(token, candidate) <= 2)
  {
    if token == candidate {
      TokenMatchesItself(token);
      return true;
    }
    var maxEdits := MaxTokenEdits(token);
    var d := TokenDistance(token, candidate, maxEdits);
    return d <= maxEdits;
  }

  /** `e` places the query tokens, in order, at strictly increasing positions of `line`, each on a token it matches. */
  ghost predicate IsEmbedding(query: seq<string>, line: seq<string>, e: seq<nat>)
  {
    && |e| == |query|
    && (forall k :: 0 <= k < |e| ==> e[k] < |line| && IsMatch(query[k], line[e[k]]))
    && (forall k :: 0 < k < |e| ==> e[k - 1] < e[k])
  }

  lemma EmbeddingPrefix(query: seq<string>, line: seq<string>, e: seq<nat>, k: nat)
    requires IsEmbedding(query, line, e) && k <= |query|
    ensures IsEmbedding(query[..k], line, e[..k])
  {
  }

  /** `_tokens_match_sequence`: false when either list is empty; otherwise true exactly when the
      query tokens can be placed in order on matching line tokens. Taking the earliest match each
      time never misses a placement. */
  method TokensMatchSequence(query: seq<string>, line: seq<string>) returns (r: bool)
    ensures r <==> |query| > 0 && |line| > 0 && exists e :: IsEmbedding(query, line, e)
  {
    if |query| == 0 || |line| == 0 {
      return false;
    }
    var idx := 0;
    ghost var w: seq<nat> := [];
    for k := 0 to |query|
      invariant 0 <= idx <= |line|
      invariant k == 0 ==> idx == 0
      invariant IsEmbedding(query[..k], line, w)
      invariant k > 0 ==> w[k - 1] < idx
      invariant forall e :: IsEmbedding(query[..k], line, e) && k > 0 ==> e[k - 1] + 1 >= idx
    {
      var token := query[k];
      var matched := false;
      ghost var start := idx;
      while idx < |line|
        invariant start <= idx <= |line|
        invariant forall m :: start <= m < idx ==> !IsMatch(token, line[m])
      {
        var hit := TokenIsMatch(token, line[idx]);
        if hit {
          matched := true;
          idx := idx + 1;
          break;
        }
        idx := idx + 1;
      }
      if !matched {
        NoPlacement(query, line, k, start);
        return false;
      }
      EarliestPlacement(query, line, w, k, start, idx - 1);
      w := w + [idx - 1];
    }
    assert query[..|query|] == query;
    return true;
  }

  /** When no line token from `start` on matches query token `k`, and every placement of the first
      `k` tokens ends at or after `start - 1`, the query cannot be placed at all. */
  lemma NoPlacement(query: seq<string>, line: seq<string>, k: nat, start: nat)
    requires k < |query| && start <= |line|
    requires k == 0 ==> start == 0
    requires forall e :: IsEmbedding(query[..k], line, e) && k > 0 ==> e[k - 1] + 1 >= start
    requires forall m :: start <= m < |line| ==> !IsMatch(query[k], line[m])
    ensures !exists e :: IsEmbedding(query, line, e)
  {
    forall e | IsEmbedding(query, line, e) ensures false {
      if k > 0 {
        EmbeddingPrefix(query, line, e, k);
      }
    }
  }

  /** Placing query token `k` on the first match at or after `start` extends the placement `w`,
      and no placement of the first `k + 1` tokens puts token `k` earlier. */
  lemma EarliestPlacement(query: seq<string>, line: seq<string>, w: seq<nat>, k: nat, start: nat, p: nat)
    requires k < |query| && start <= p < |line|
    requires k == 0 ==> start == 0
    requires IsEmbedding(query[..k], line, w)
    requires k > 0 ==> w[k - 1] < start
    requires forall e :: IsEmbedding(query[..k], line, e) && k > 0 ==> e[k - 1] + 1 >= start
    requires forall m :: start <= m < p ==> !IsMatch(query[k], line[m])
    requires IsMatch(query[k], line[p])
    ensures IsEmbedding(query[..k + 1], line, w + [p])
    ensures forall e :: IsEmbedding(query[..k + 1], line, e) ==> e[k] >= p
  {
    ExtendPlacement(query, line, w, k, p);
    forall e | IsEmbedding(query[..k + 1], line, e) ensures e[k] >= p {
      NoEarlierPlacement(query, line, e, k, start, p);
    }
  }

  lemma ExtendPlacement(query: seq<string>, line: seq<string>, w: seq<nat>, k: nat, p: nat)
    requires k < |query| && p < |line|
    requires IsEmbedding(query[..k], line, w)
    requires k > 0 ==> w[k - 1] < p
    requires IsMatch(query[k], line[p])
    ensures IsEmbedding(query[..k + 1], line, w + [p])
  {
    assert query[..k + 1][k] == query[k];
    assert forall m :: 0 <= m < k ==> query[..k + 1][m] == query[..k][m];
  }

  lemma NoEarlierPlacement(query: seq<string>, line: seq<string>, e: seq<nat>, k: nat, start: nat, p: nat)
    requires k < |query| && start <= p < |line|
    requires k == 0 ==> start == 0
    requires forall e :: IsEmbedding(query[..k], line, e) && k > 0 ==> e[k - 1] + 1 >= start
    requires forall m :: start <= m < p ==> !IsMatch(query[k], line[m])
    requires IsEmbedding(query[..k + 1], line, e)
    ensures e[k] >= p
  {
    if k > 0 {
      EmbeddingPrefix(query[..k + 1], line, e, k);
      assert query[..k + 1][..k] == query[..k];
      assert e[..k][k - 1] == e[k - 1];
    }
    assert e[k] >= start;
    assert query[..k + 1][k] == query[k];
  }

  // ---------------------------------------------------------------------
  // Trigger tokens

  const StopWords: set<string> :=
    { "вул", "вулиця", "пров", "провулок", "просп", "проспект", "пл", "площа",
      "м", "с", "смт", "х", "буд", "будинок" }

  /** `str.isdigit` on the tokens the engine produces: non-empty and all digits. */
  predicate IsDigitToken(t: string)
  {
    |t| > 0 && AllDigits(t)
  }

  /** A token the filter keeps: not a street-type or settlement word, not a bare number, at least two characters. */
  predicate Kept(t: string)
  {
    t !in StopWords && !IsDigitToken(t) && |t| >= 2
  }

  function KeptTokens(tokens: seq<string>): seq<string>
  {
    if tokens == [] then []
    else KeptTokens(tokens[..|tokens| - 1]) + (if Kept(tokens[|tokens| - 1]) then [tokens[|tokens| - 1]] else [])
  }

  /** `_filter_trigger_tokens`. */
  method FilterTriggerTokens(tokens: seq<string>) returns (filtered: seq<string>)
    ensures filtered == KeptTokens(tokens)
  {
    filtered := [];
    for i := 0 to |tokens|
      invariant filtered == KeptTokens(tokens[..i])
    {
      assert tokens[..i + 1][..i] == tokens[..i];
      var token := tokens[i];
      if token in StopWords {
        continue;
      }
      if IsDigitToken(token) {
        continue;
      }
      if |token| < 2 {
        continue;
      }
      filtered := filtered + [token];
    }
    assert tokens[..|tokens|] == tokens;
  }

  /** The filter keeps exactly the tokens that pass, ... */
  lemma {:induction false} KeptTokensMembers(tokens: seq<string>)
    ensures forall t :: t in KeptTokens(tokens) <==> t in tokens && Kept(t)
    decreases |tokens|
  {
    if tokens != [] {
      var front := tokens[..|tokens| - 1];
      KeptTokensMembers(front);
      assert tokens == front + [tokens[|tokens| - 1]];
    }
  }

  /** ... and keeps them in their input order: filtering a concatenation concatenates the filtered parts. */
  lemma {:induction false} KeptTokensAppend(a: seq<string>, b: seq<string>)
    ensures KeptTokens(a + b) == KeptTokens(a) + KeptTokens(b)
    decreases |b|
  {
    if b == [] {
      assert a + b == a;
    } else {
      assert (a + b)[..|a + b| - 1] == a + b[..|b| - 1];
      assert (a + b)[|a + b| - 1] == b[|b| - 1];
      KeptTokensAppend(a, b[..|b| - 1]);
    }
  }

  // ---------------------------------------------------------------------
  // House number in a line

  /** The number's tokens occur at position `i` of the line's tokens, one after another. */
  ghost predicate RunAt(lineTokens: seq<string>, numberTokens: seq<string>, i: nat)
  {
    i + |numberTokens| <= |lineTokens| && lineTokens[i..i + |numberTokens|] == numberTokens
  }

  /** `_line_has_number`, given the outcome of its regular-expression search and the token lists its
      normalisation produces: an empty number never matches, a regex hit always does, a number with
      no tokens does not, and otherwise the number's tokens must occur as a contiguous run. */
  method LineHasNumber(number: string, regexHit: bool, lineTokens: seq<string>, numberTokens: seq<string>)
    returns (r: bool)
    ensures r <==> number != "" && (regexHit || (numberTokens != [] && exists i :: RunAt(lineTokens, numberTokens, i)))
  {
    if number == "" {
      return false;
    }
    if regexHit {
      return true;
    }
    if numberTokens == [] {
      return false;
    }
    var n := |numberTokens|;
    var idx := 0;
    while idx < |lineTokens| - n + 1
      invariant 0 <= idx
      invariant forall i :: 0 <= i < idx ==> !RunAt(lineTokens, numberTokens, i)
    {
      if lineTokens[idx..idx + n] == numberTokens {
        assert RunAt(lineTokens, numberTokens, idx);
        return true;
      }
      idx := idx + 1;
    }
    assert forall i: nat :: !RunAt(lineTokens, numberTokens, i) by {
      forall i: nat ensures !RunAt(lineTokens, numberTokens, i) {
        if i >= idx {
          assert i + n > |lineTokens|;
        }
      }
    }
    return false;
  }
}
