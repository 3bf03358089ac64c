/** The match finder: hash buckets, longest match, lazy evaluation, and the token list they give. */
module Lz77 {
  import opened Bits
  import opened Deflate

  const ZHASH: nat := 16384

  /** `stbiw__zhash`, cut to the size of the table. */
  function HashBytes(x: bv32, y: bv32, z: bv32): bv14 {
    var h := x + (y << 8) + (z << 16);
    var h := h ^ (h << 3);
    var h := h + (h >> 5);
    var h := h ^ (h << 4);
    var h := h + (h >> 17);
    var h := h ^ (h << 25);
    var h := h + (h >> 6);
    (h & 0x3FFF) as bv14
  }

  function Hash(data: seq<byte>, i: nat): (h: nat)
    requires i + 2 < |data|
    ensures h < ZHASH
  {
    HashBytes(data[i] as bv8 as bv32, data[i + 1] as bv8 as bv32, data[i + 2] as bv8 as bv32) as nat
  }

  // ----- Matches

  /** Where counting equal bytes must stop. */
  function Cap(limit: nat): nat {
    if limit < 258 then limit else 258
  }

  predicate Same(data: seq<byte>, p: nat, i: nat, m: nat) {
    p + m < |data| && i + m < |data| && data[p + m] == data[i + m]
  }

  /** The `len` bytes at `p` are the `len` bytes at `i`. */
  predicate Repeats(data: seq<byte>, p: nat, i: nat, len: nat) {
    forall m | 0 <= m < len :: Same(data, p, i, m)
  }

  function CountFrom(data: seq<byte>, p: nat, i: nat, limit: nat, k: nat): (r: nat)
    requires p <= i && i + limit == |data| && k <= Cap(limit)
    ensures k <= r <= Cap(limit)
    ensures forall m | k <= m < r :: Same(data, p, i, m)
    ensures r < Cap(limit) ==> !Same(data, p, i, r)
    decreases Cap(limit) - k
  {
    if k < Cap(limit) && data[p + k] == data[i + k] then
      assert Same(data, p, i, k);
      CountFrom(data, p, i, limit, k + 1)
    else k
  }

  /** How many bytes from `p` repeat at the cursor `i`, at most to the end of the data and at most 258. */
  function Count(data: seq<byte>, p: nat, i: nat): (r: nat)
    requires p <= i <= |data|
    ensures r <= Cap(|data| - i)
    ensures Repeats(data, p, i, r)
    ensures r < Cap(|data| - i) ==> !Same(data, p, i, r)
  {
    CountFrom(data, p, i, |data| - i, 0)
  }

  /** `stbiw__zlib_countm` on positions of the input. */
  method CountM(data: seq<byte>, a: nat, b: nat, limit: nat) returns (i: nat)
    requires a <= b && b + limit == |data|
    ensures i == Count(data, a, b)
  {
    i := 0;
    while i < limit && i < 258
      invariant i <= Cap(limit)
      invariant CountFrom(data, a, b, limit, i) == Count(data, a, b)
    {
      if data[a + i] != data[b + i] {
        break;
      }
      i := i + 1;
    }
  }

  predicate UpTo(cands: seq<nat>, i: nat) {
    forall j | 0 <= j < |cands| :: cands[j] <= i
  }

  /** How good a candidate is: its match length, or nothing outside the 32K window. */
  function Score(data: seq<byte>, c: nat, i: nat): nat
    requires c <= i <= |data|
  {
    if c > i - 32768 then Count(data, c, i) else 0
  }

  /** The answer a search must give: the longest match of three or more in the window, the latest among equals. */
  ghost predicate IsBest(data: seq<byte>, i: nat, cands: seq<nat>, best: nat, loc: Option<nat>)
    requires i <= |data| && UpTo(cands, i)
  {
    if loc.None? then
      best == 3 && forall j | 0 <= j < |cands| :: Score(data, cands[j], i) < 3
    else
      && best >= 3
      && exists w | 0 <= w < |cands| :: IsBestAt(data, i, cands, best, w) && cands[w] == loc.value
  }

  ghost predicate IsBestAt(data: seq<byte>, i: nat, cands: seq<nat>, best: nat, w: nat)
    requires i <= |data| && UpTo(cands, i) && w < |cands|
  {
    && Score(data, cands[w], i) == best
    && (forall j | 0 <= j < |cands| :: Score(data, cands[j], i) <= best)
    && (forall j | w < j < |cands| :: Score(data, cands[j], i) < best)
  }

  function Best(data: seq<byte>, i: nat, cands: seq<nat>): (r: (nat, Option<nat>))
    requires i <= |data| && UpTo(cands, i)
    ensures r.0 >= 3
    ensures r.1.Some? ==> r.1.value <= i
    decreases |cands|
  {
    if cands == [] then (3, None)
    else
      var n := |cands| - 1;
      var r := Best(data, i, cands[..n]);
      var c := cands[n];
      if c > i - 32768 && Count(data, c, i) >= r.0 then (Count(data, c, i), Some(c)) else r
  }

  lemma ScoreIsCount(data: seq<byte>, c: nat, i: nat, best: nat)
    requires c <= i <= |data| && best >= 1
    ensures (c > i - 32768 && Count(data, c, i) >= best) <==> Score(data, c, i) >= best
    ensures Score(data, c, i) >= best ==> Score(data, c, i) == Count(data, c, i)
  {
    hide Count;
  }

  /** A new candidate at least as good takes over. */
  lemma BestAtNewest(data: seq<byte>, i: nat, cands: seq<nat>, n: nat, best: nat)
    requires n + 1 == |cands| && i <= |data| && UpTo(cands, i) && Score(data, cands[n], i) >= best
    requires forall j | 0 <= j < n :: Score(data, cands[j], i) <= best
    ensures IsBestAt(data, i, cands, Score(data, cands[n], i), n)
  {
    hide Score;
  }

  /** A worse one changes nothing. */
  lemma BestAtKept(data: seq<byte>, i: nat, cands: seq<nat>, n: nat, best: nat, w: nat)
    requires n + 1 == |cands| && i <= |data| && UpTo(cands, i) && Score(data, cands[n], i) < best
    requires w < n && IsBestAt(data, i, cands[..n], best, w)
    ensures IsBestAt(data, i, cands, best, w)
  {
    hide Score;
    forall j | 0 <= j < |cands|
      ensures Score(data, cands[j], i) <= best && (w < j ==> Score(data, cands[j], i) < best)
    {
      if j < n {
        assert cands[..n][j] == cands[j];
      }
    }
    assert cands[..n][w] == cands[w];
  }

  lemma BestIsUpperBound(data: seq<byte>, i: nat, cands: seq<nat>, best: nat, loc: Option<nat>)
    requires i <= |data| && UpTo(cands, i) && IsBest(data, i, cands, best, loc)
    ensures forall j | 0 <= j < |cands| :: Score(data, cands[j], i) <= best
  {
    hide Score;
  }

  /** The search gives the longest match, and the nearest among the longest. */
  lemma {:induction false} BestIsBest(data: seq<byte>, i: nat, cands: seq<nat>)
    requires i <= |data| && UpTo(cands, i)
    ensures IsBest(data, i, cands, Best(data, i, cands).0, Best(data, i, cands).1)
    decreases |cands|
  {
    if cands != [] {
      var n := |cands| - 1;
      var (best, loc) := Best(data, i, cands[..n]);
      BestIsBest(data, i, cands[..n]);
      ScoreIsCount(data, cands[n], i, best);
      BestIsUpperBound(data, i, cands[..n], best, loc);
      hide Score, Count;
      assert forall j | 0 <= j < n :: cands[..n][j] == cands[j];
      if Score(data, cands[n], i) >= best {
        BestAtNewest(data, i, cands, n, best);
      } else if loc.Some? {
        var w :| 0 <= w < n && IsBestAt(data, i, cands[..n], best, w) && cands[..n][w] == loc.value;
        BestAtKept(data, i, cands, n, best, w);
        hide IsBestAt;
        assert cands[w] == loc.value;
      }
    }
  }

  /** Lazy evaluation: some candidate matches more than `best` bytes at the next position `i`. */
  predicate Better(data: seq<byte>, i: nat, cands: seq<nat>, best: nat)
    requires i <= |data| && UpTo(cands, i)
  {
    exists j | 0 <= j < |cands| :: Score(data, cands[j], i) > best
  }

  // ----- Buckets

  predicate Hashable(data: seq<byte>, visited: seq<nat>) {
    forall j | 0 <= j < |visited| :: visited[j] + 2 < |data|
  }

  /** The contents of bucket `h` after the positions `visited` have been entered in order. */
  function Bucket(data: seq<byte>, visited: seq<nat>, h: nat, q: nat): seq<nat>
    requires Hashable(data, visited)
    decreases |visited|
  {
    if visited == [] then []
    else
      var n := |visited| - 1;
      var b := Bucket(data, visited[..n], h, q);
      if Hash(data, visited[n]) != h then b
      else if |b| == 2 * q then b[q..] + [visited[n]]
      else b + [visited[n]]
  }

  ghost predicate Increasing(s: seq<nat>) {
    forall j, k | 0 <= j < k < |s| :: s[j] < s[k]
  }

  predicate HasHash(data: seq<byte>, p: nat, h: nat) {
    p + 2 < |data| && Hash(data, p) == h
  }

  ghost predicate HoldsHash(data: seq<byte>, b: seq<nat>, h: nat) {
    forall j | 0 <= j < |b| :: HasHash(data, b[j], h)
  }

  lemma {:induction false} BucketSize(data: seq<byte>, visited: seq<nat>, h: nat, q: nat)
    requires Hashable(data, visited) && q > 0
    ensures |Bucket(data, visited, h, q)| <= 2 * q
    decreases |visited|
  {
    if visited != [] {
      hide Hash;
      BucketSize(data, visited[..|visited| - 1], h, q);
    }
  }

  lemma {:induction false} BucketHash(data: seq<byte>, visited: seq<nat>, h: nat, q: nat)
    requires Hashable(data, visited) && q > 0
    ensures HoldsHash(data, Bucket(data, visited, h, q), h)
    decreases |visited|
  {
    if visited != [] {
      hide Hash;
      BucketHash(data, visited[..|visited| - 1], h, q);
    }
  }

  ghost predicate Below(s: seq<nat>, i: nat) {
    forall j | 0 <= j < |s| :: s[j] < i
  }

  lemma {:induction false} BucketOrder(data: seq<byte>, visited: seq<nat>, i: nat, h: nat, q: nat)
    requires Hashable(data, visited) && Increasing(visited) && Below(visited, i) && q > 0
    ensures Increasing(Bucket(data, visited, h, q)) && Below(Bucket(data, visited, h, q), i)
    decreases |visited|
  {
    if visited != [] {
      hide Hash;
      var n := |visited| - 1;
      var b := Bucket(data, visited[..n], h, q);
      IncreasingPrefix(visited, i);
      BucketOrder(data, visited[..n], visited[n], h, q);
      if |b| == 2 * q {
        IncreasingSuffix(b, visited[n], q);
        IncreasingSnoc(b[q..], visited[n], i);
      } else {
        IncreasingSnoc(b, visited[n], i);
      }
      BelowMono(b, visited[n], i);
      hide Increasing, Below;
    }
  }

  lemma IncreasingPrefix(s: seq<nat>, i: nat)
    requires s != [] && Increasing(s) && Below(s, i)
    ensures Increasing(s[..|s| - 1]) && Below(s[..|s| - 1], s[|s| - 1]) && s[|s| - 1] < i
  {
  }

  lemma IncreasingSuffix(s: seq<nat>, i: nat, q: nat)
    requires q <= |s| && Increasing(s) && Below(s, i)
    ensures Increasing(s[q..]) && Below(s[q..], i)
  {
  }

  lemma IncreasingSnoc(s: seq<nat>, x: nat, i: nat)
    requires Increasing(s) && Below(s, x) && x < i
    ensures Increasing(s + [x]) && Below(s + [x], i)
  {
  }

  lemma BelowMono(s: seq<nat>, x: nat, i: nat)
    requires Below(s, x) && x <= i
    ensures Below(s, i)
  {
  }

  /** After any number of steps a bucket holds at most twice the quality positions, strictly
      increasing, before the cursor `i`, and each with the hash of the bucket. */
  lemma BucketInvariant(data: seq<byte>, visited: seq<nat>, i: nat, h: nat, q: nat)
    requires Hashable(data, visited) && Increasing(visited) && Below(visited, i) && q > 0
    ensures var b := Bucket(data, visited, h, q);
            |b| <= 2 * q && Increasing(b) && Below(b, i) && HoldsHash(data, b, h)
  {
    BucketSize(data, visited, h, q);
    BucketHash(data, visited, h, q);
    BucketOrder(data, visited, i, h, q);
  }

  /** The latest position with its hash is always kept. */
  lemma BucketKeepsLatest(data: seq<byte>, visited: seq<nat>, p: nat, q: nat)
    requires Hashable(data, visited + [p])
    ensures p + 2 < |data|
    ensures var b := Bucket(data, visited + [p], Hash(data, p), q);
            b != [] && b[|b| - 1] == p
  {
    hide Hash;
    assert (visited + [p])[|visited|] == p;
    assert (visited + [p])[..|visited|] == visited;
  }

  // ----- The token list

  /** What the main loop keeps: the cursor and the positions entered into the table so far. */
  ghost predicate State(data: seq<byte>, i: nat, visited: seq<nat>) {
    i <= |data| && Hashable(data, visited) && Increasing(visited) && Below(visited, i)
  }

  lemma StateStep(data: seq<byte>, i: nat, visited: seq<nat>, next: nat)
    requires State(data, i, visited) && i + 2 < |data| && i < next <= |data|
    ensures State(data, next, visited + [i])
  {
    IncreasingSnoc(visited, i, next);
  }

  /** The positions tried at the cursor: the bucket of its hash. */
  ghost function Candidates(data: seq<byte>, q: nat, i: nat, visited: seq<nat>): (c: seq<nat>)
    requires State(data, i, visited) && i + 2 < |data| && q > 0
    ensures UpTo(c, i)
  {
    BucketOrder(data, visited, i, Hash(data, i), q);
    Bucket(data, visited, Hash(data, i), q)
  }

  /** The positions tried one byte later, the cursor itself among them. */
  ghost function NextCandidates(data: seq<byte>, q: nat, i: nat, visited: seq<nat>): (c: seq<nat>)
    requires State(data, i, visited) && i + 3 < |data| && q > 0
    ensures UpTo(c, i + 1)
  {
    StateStep(data, i, visited, i + 1);
    Candidates(data, q, i + 1, visited + [i])
  }

  /** The decision at the cursor. */
  ghost function Choose(data: seq<byte>, q: nat, i: nat, visited: seq<nat>): Token
    requires State(data, i, visited) && i + 3 < |data| && q > 0
  {
    var r := Best(data, i, Candidates(data, q, i, visited));
    if r.1.Some? && !Better(data, i + 1, NextCandidates(data, q, i, visited), r.0)
    then Match(r.0, i - r.1.value) else Literal(data[i])
  }

  function Span(t: Token): nat {
    match t
    case Literal(_) => 1
    case Match(len, _) => len
  }

  /** A match emitted at `i` repeats earlier data, stays inside it and inside the window, and is the
      longest candidate, nearest among the longest; no candidate does better one byte later. */
  lemma ChooseSound(data: seq<byte>, q: nat, i: nat, visited: seq<nat>)
    requires State(data, i, visited) && i + 3 < |data| && q > 0
    ensures var t := Choose(data, q, i, visited);
            && Deflate.Valid(t) && 1 <= Span(t) && i + Span(t) <= |data|
            && (t.Literal? ==> t.b == data[i])
            && (t.Match? ==>
                && t.dist <= i
                && Repeats(data, i - t.dist, i, t.len)
                && IsBest(data, i, Candidates(data, q, i, visited), t.len, Some(i - t.dist))
                && !Better(data, i + 1, NextCandidates(data, q, i, visited), t.len))
  {
    var cands := Candidates(data, q, i, visited);
    BucketOrder(data, visited, i, Hash(data, i), q);
    BestIsBest(data, i, cands);
    var (best, loc) := Best(data, i, cands);
    if loc.Some? {
      var w :| 0 <= w < |cands| && IsBestAt(data, i, cands, best, w) && cands[w] == loc.value;
      assert Score(data, cands[w], i) == best;
    }
  }

  /** The tokens from the cursor to the end of the data; the last three bytes are always literals. */
  ghost function Tokens(data: seq<byte>, q: nat, i: nat, visited: seq<nat>): seq<Token>
    requires State(data, i, visited) && q > 0
    decreases |data| - i
  {
    if i + 3 < |data| then
      var t := Choose(data, q, i, visited);
      ChooseSound(data, q, i, visited);
      StateStep(data, i, visited, i + Span(t));
      [t] + Tokens(data, q, i + Span(t), visited + [i])
    else if i < |data| then
      [Literal(data[i])] + Tokens(data, q, i + 1, visited)
    else []
  }

  lemma RepeatsTail(data: seq<byte>, p: nat, i: nat, len: nat)
    requires len > 0 && Repeats(data, p, i, len)
    ensures Repeats(data, p + 1, i + 1, len - 1)
  {
    var p', i' := p + 1, i + 1;
    forall m | 0 <= m < len - 1
      ensures Same(data, p', i', m)
    {
      assert Same(data, p, i, m + 1);
    }
  }

  /** Copying from `dist` back reproduces the next bytes of the data, even where it overlaps itself. */
  lemma {:induction false} CopyReproduces(data: seq<byte>, i: nat, len: nat, dist: nat)
    requires 1 <= dist <= i && i + len <= |data|
    requires Repeats(data, i - dist, i, len)
    ensures CopyMatch(data[..i], len, dist) == data[..i + len]
    decreases len
  {
    if len > 0 {
      assert Same(data, i - dist, i, 0);
      assert data[..i] + [data[..i][i - dist]] == data[..i + 1];
      RepeatsTail(data, i - dist, i, len);
      CopyReproduces(data, i + 1, len - 1, dist);
    }
  }

  lemma ValidCons(t: Token, ts: seq<Token>)
    requires Deflate.Valid(t) && AllValid(ts)
    ensures AllValid([t] + ts)
  {
  }

  lemma ValidNil()
    ensures AllValid([])
  {
  }

  lemma {:induction false} TokensValid(data: seq<byte>, q: nat, i: nat, visited: seq<nat>)
    requires State(data, i, visited) && q > 0
    ensures AllValid(Tokens(data, q, i, visited))
    decreases |data| - i
  {
    StateBound(data, i, visited);
    hide State, Choose, Span, Tokens, Apply, AllValid, Valid;
    if i + 3 < |data| {
      var next := i + Span(Choose(data, q, i, visited));
      TokensStep(data, q, i, visited, next);
      TokensValid(data, q, next, visited + [i]);
      ValidCons(Choose(data, q, i, visited), Tokens(data, q, next, visited + [i]));
    } else if i < |data| {
      TokensLast(data, q, i, visited);
      TokensValid(data, q, i + 1, visited);
      ValidCons(Literal(data[i]), Tokens(data, q, i + 1, visited));
    } else {
      TokensEnd(data, q, visited);
      ValidNil();
    }
  }

  lemma ExpandCons(t: Token, ts: seq<Token>, out: seq<byte>)
    requires Apply(t, out).Some?
    ensures Expand([t] + ts, out) == Expand(ts, Apply(t, out).value)
  {
    hide Apply;
    assert ([t] + ts)[1..] == ts;
  }

  lemma ChooseApplies(data: seq<byte>, q: nat, i: nat, visited: seq<nat>)
    requires State(data, i, visited) && i + 3 < |data| && q > 0
    ensures var t := Choose(data, q, i, visited);
            && Deflate.Valid(t) && 1 <= Span(t) && i + Span(t) <= |data|
            && Apply(t, data[..i]) == Some(data[..i + Span(t)])
  {
    ChooseSound(data, q, i, visited);
    ApplyToken(data, i, Choose(data, q, i, visited));
  }

  lemma TokensStep(data: seq<byte>, q: nat, i: nat, visited: seq<nat>, next: nat)
    requires State(data, i, visited) && i + 3 < |data| && q > 0
    requires next == i + Span(Choose(data, q, i, visited))
    ensures State(data, next, visited + [i]) && i < next <= |data|
    ensures Deflate.Valid(Choose(data, q, i, visited))
    ensures Tokens(data, q, i, visited) == [Choose(data, q, i, visited)] + Tokens(data, q, next, visited + [i])
  {
    hide Choose, Span, Valid, State, Apply;
    ChooseApplies(data, q, i, visited);
    StateStep(data, i, visited, next);
  }

  lemma TokensLast(data: seq<byte>, q: nat, i: nat, visited: seq<nat>)
    requires State(data, i, visited) && i < |data| <= i + 3 && q > 0
    ensures State(data, i + 1, visited)
    ensures Tokens(data, q, i, visited) == [Literal(data[i])] + Tokens(data, q, i + 1, visited)
  {
    StateStay(data, i, visited);
    hide State;
  }

  lemma TokensEnd(data: seq<byte>, q: nat, visited: seq<nat>)
    requires State(data, |data|, visited) && q > 0
    ensures Tokens(data, q, |data|, visited) == []
  {
  }

  lemma ExpandStep(data: seq<byte>, q: nat, i: nat, visited: seq<nat>, next: nat)
    requires State(data, i, visited) && i + 3 < |data| && q > 0
    requires next == i + Span(Choose(data, q, i, visited)) && State(data, next, visited + [i])
    requires next <= |data| && Expand(Tokens(data, q, next, visited + [i]), data[..next]) == Some(data)
    ensures Expand(Tokens(data, q, i, visited), data[..i]) == Some(data)
  {
    hide State, Choose, Apply, Expand, Span, Tokens, Valid;
    var t := Choose(data, q, i, visited);
    ChooseApplies(data, q, i, visited);
    TokensStep(data, q, i, visited, next);
    ExpandCons(t, Tokens(data, q, next, visited + [i]), data[..i]);
  }

  lemma ExpandLast(data: seq<byte>, q: nat, i: nat, visited: seq<nat>)
    requires State(data, i, visited) && i < |data| <= i + 3 && q > 0 && State(data, i + 1, visited)
    requires Expand(Tokens(data, q, i + 1, visited), data[..i + 1]) == Some(data)
    ensures Expand(Tokens(data, q, i, visited), data[..i]) == Some(data)
  {
    hide State, Apply, Expand, Span, Tokens;
    var t := Literal(data[i]);
    TokensLast(data, q, i, visited);
    SpanOfLiteral(data[i]);
    ApplyToken(data, i, t);
    ExpandCons(t, Tokens(data, q, i + 1, visited), data[..i]);
  }

  /** The token list expands to the data. */
  lemma {:induction false} TokensExpand(data: seq<byte>, q: nat, i: nat, visited: seq<nat>)
    requires State(data, i, visited) && q > 0
    ensures Expand(Tokens(data, q, i, visited), data[..i]) == Some(data)
    decreases |data| - i
  {
    StateBound(data, i, visited);
    hide State, Choose, Expand, Span, Tokens, Valid;
    if i + 3 < |data| {
      var next := i + Span(Choose(data, q, i, visited));
      TokensStep(data, q, i, visited, next);
      TokensExpand(data, q, next, visited + [i]);
      ExpandStep(data, q, i, visited, next);
    } else if i < |data| {
      StateStay(data, i, visited);
      TokensExpand(data, q, i + 1, visited);
      ExpandLast(data, q, i, visited);
    } else {
      assert data[..i] == data;
      TokensEnd(data, q, visited);
      ExpandNil(data);
    }
  }

  lemma SpanOfLiteral(b: byte)
    ensures Span(Literal(b)) == 1
  {
  }

  lemma ExpandNil(out: seq<byte>)
    ensures Expand([], out) == Some(out)
  {
  }

  lemma StateBound(data: seq<byte>, i: nat, visited: seq<nat>)
    requires State(data, i, visited)
    ensures i <= |data|
  {
  }

  lemma StateStay(data: seq<byte>, i: nat, visited: seq<nat>)
    requires State(data, i, visited) && i < |data|
    ensures State(data, i + 1, visited)
  {
  }

  lemma ApplyToken(data: seq<byte>, i: nat, t: Token)
    requires i + Span(t) <= |data|
    requires t.Literal? ==> t.b == data[i]
    requires t.Match? ==> 1 <= t.dist <= i && Repeats(data, i - t.dist, i, t.len)
    ensures Apply(t, data[..i]) == Some(data[..i + Span(t)])
  {
    match t
    case Literal(b) =>
      assert data[..i] + [b] == data[..i + 1];
    case Match(len, dist) =>
      CopyReproduces(data, i, len, dist);
  }

  lemma TokensBitsStep(t: Token, ts: seq<Token>, span: nat)
    requires Deflate.Valid(t) && AllValid(ts) && span == Span(t) >= 1 && AllValid([t] + ts)
    ensures 3 * |TokensBits([t] + ts)| <= 31 * span + 3 * |TokensBits(ts)|
  {
    TokenBitsLength(t);
    hide TokenBits;
    assert ([t] + ts)[1..] == ts;
  }

  /** A compressed byte costs at most a third of 31 bits. */
  lemma {:induction false} TokensBitsLength(data: seq<byte>, q: nat, i: nat, visited: seq<nat>)
    requires State(data, i, visited) && q > 0
    ensures AllValid(Tokens(data, q, i, visited))
    ensures 3 * |TokensBits(Tokens(data, q, i, visited))| <= 31 * (|data| - i)
    decreases |data| - i
  {
    StateBound(data, i, visited);
    TokensValid(data, q, i, visited);
    hide State, Choose, Span, Tokens, Valid, AllValid, TokensBits;
    if i + 3 < |data| {
      var next := i + Span(Choose(data, q, i, visited));
      TokensStep(data, q, i, visited, next);
      TokensBitsLength(data, q, next, visited + [i]);
      TokensBitsStep(Choose(data, q, i, visited), Tokens(data, q, next, visited + [i]), next - i);
    } else if i < |data| {
      TokensLast(data, q, i, visited);
      SpanOfLiteral(data[i]);
      TokensBitsLength(data, q, i + 1, visited);
      LiteralValid(data[i]);
      TokensBitsStep(Literal(data[i]), Tokens(data, q, i + 1, visited), 1);
    } else {
      TokensEnd(data, q, visited);
      NoBits();
    }
  }

  lemma LiteralValid(b: byte)
    ensures Deflate.Valid(Literal(b))
  {
  }

  lemma NoBits()
    ensures AllValid([]) && TokensBits([]) == []
  {
  }

  /** Of all positions in the bucket at most 32767 back, none repeats more bytes at the cursor than the match
      chosen, and none that repeats as many is nearer. */
  lemma ChosenIsLongest(data: seq<byte>, q: nat, i: nat, visited: seq<nat>, c: nat, len: nat)
    requires State(data, i, visited) && i + 3 < |data| && q > 0 && Choose(data, q, i, visited).Match?
    requires c in Bucket(data, visited, Hash(data, i), q) && c <= i && i - c <= 32767
    requires len <= 258 && i + len <= |data| && Repeats(data, c, i, len)
    ensures var t := Choose(data, q, i, visited); len <= t.len && (len == t.len ==> i - c >= t.dist)
  {
    ChooseSound(data, q, i, visited);
    BucketOrder(data, visited, i, Hash(data, i), q);
    hide Choose, Bucket, Count, Best, Better, State;
    var t, cands := Choose(data, q, i, visited), Candidates(data, q, i, visited);
    CountReaches(data, c, i, len);
    var j :| 0 <= j < |cands| && cands[j] == c;
    assert Score(data, cands[j], i) >= len;
    var w :| 0 <= w < |cands| && IsBestAt(data, i, cands, t.len, w) && cands[w] == i - t.dist;
    assert len == t.len ==> j <= w;
  }

  lemma CountReaches(data: seq<byte>, c: nat, i: nat, len: nat)
    requires c <= i && len <= 258 && i + len <= |data| && Repeats(data, c, i, len)
    ensures Count(data, c, i) >= len
  {
  }
}
