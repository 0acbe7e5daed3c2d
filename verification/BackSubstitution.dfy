/** The loops of `ForneyPlan` in par2repair/forney.rs, on one word of every block: stage one
    by segments with direct transforms, stage two by residues of the exponent. */
module BackSubstitution {
  import opened Basics
  import opened CharTwo
  import opened Vandermonde
  import opened Sums
  import opened Transforms

  /** The table of the powers of a root, over one period. */
  ghost predicate IsTable<E(!new)>(f: Field<E>, w: E, powers: seq<E>) {
    && powers != [] && Power(f, w, |powers|) == f.one
    && forall i | 0 <= i < |powers| :: powers[i] == Power(f, w, i)
  }

  lemma TableAt<E(!new)>(f: Field<E>, w: E, powers: seq<E>, e: nat)
    requires f.Lawful() && IsTable(f, w, powers)
    ensures powers[e % |powers|] == Power(f, w, e)
  {
    PowerMod(f, w, |powers|, e);
  }

  /** `fold_rows` on one word: the sources times their coefficients, summed. */
  method Fold<E(!new)>(f: Field<E>, sources: seq<E>, coefficients: seq<E>, ghost h: nat -> E) returns (r: E)
    requires f.Lawful() && |sources| == |coefficients|
    requires forall i: nat | i < |sources| :: h(i) == f.mul(coefficients[i], sources[i])
    ensures r == Sum(f, |sources|, h)
  {
    r := f.zero;
    for i := 0 to |sources|
      invariant r == Sum(f, i, h)
    {
      r := f.add(r, f.mul(coefficients[i], sources[i]));
    }
  }

  /** The coefficients of one point of a transform of `b` entries. */
  method Row<E(!new)>(f: Field<E>, ghost w: E, powers: seq<E>, k: nat, b: nat) returns (row: seq<E>)
    requires f.Lawful() && IsTable(f, w, powers)
    ensures |row| == b && forall r: nat | r < b :: row[r] == Power(f, w, k * r)
  {
    row := [];
    for r := 0 to b
      invariant |row| == r && forall i: nat | i < r :: row[i] == Power(f, w, k * i)
    {
      TableAt(f, w, powers, k * r);
      row := row + [powers[k * r % |powers|]];
    }
  }

  /** The spectrum of the entries `x`. */
  method Forward<E(!new)>(f: Field<E>, ghost w: E, powers: seq<E>, x: seq<E>, ghost h: nat -> E) returns (hat: seq<E>)
    requires f.Lawful() && IsTable(f, w, powers) && forall r: nat | r < |x| :: x[r] == h(r)
    ensures |hat| == |powers| && forall k: nat | k < |hat| :: hat[k] == Transform(f, w, |x|, h, k)
  {
    hat := [];
    for k := 0 to |powers|
      invariant |hat| == k && forall i: nat | i < k :: hat[i] == Transform(f, w, |x|, h, i)
    {
      var row := Row(f, w, powers, k, |x|);
      var value := Fold(f, x, row, Waves(f, w, h, k));
      hat := hat + [value];
    }
  }

  /** The spectrum of one input segment; the last one may be short. */
  method SegmentSpectrum<E(!new)>(f: Field<E>, ghost w: E, powers: seq<E>, s: seq<E>, b: nat, j: nat)
    returns (hat: seq<E>)
    requires f.Lawful() && IsTable(f, w, powers)
    ensures |hat| == |powers| && forall k: nat | k < |hat| :: hat[k] == Transform(f, w, b, Segment(f, s, b, j), k)
  {
    var x: seq<E> := [];
    for r := 0 to b
      invariant |x| == r && forall i: nat | i < r :: x[i] == Segment(f, s, b, j)(i)
    {
      x := x + [Entry(f, s, j * b + r)];
    }
    hat := Forward(f, w, powers, x, Segment(f, s, b, j));
  }

  /** The spectrum of one reversed kernel. */
  method KernelSpectrum<E(!new)>(f: Field<E>, ghost w: E, powers: seq<E>, p: seq<E>, b: nat, d: nat)
    returns (hat: seq<E>)
    requires f.Lawful() && IsTable(f, w, powers) && |powers| == 2 * b - 1
    ensures |hat| == |powers|
    ensures forall k: nat | k < |hat| :: hat[k] == Transform(f, w, 2 * b - 1, Kernel(f, p, b, d), k)
  {
    var x: seq<E> := [];
    for v := 0 to 2 * b - 1
      invariant |x| == v && forall i: nat | i < v :: x[i] == Kernel(f, p, b, d)(i)
    {
      x := x + [Entry(f, p, d * b + 2 * b - 1 - v)];
    }
    hat := Forward(f, w, powers, x, Kernel(f, p, b, d));
  }

  /** The spectra of all segments and of all kernels. */
  ghost predicate AreSpectra<E(!new)>(f: Field<E>, w: E, s: seq<E>, p: seq<E>, b: nat, shat: seq<seq<E>>,
      rhat: seq<seq<E>>)
    requires b > 0
  {
    && |shat| == |rhat| && AllLong(shat, 2 * b - 1) && AllLong(rhat, 2 * b - 1)
    && (forall j: nat, k: nat | j < |shat| && k < 2 * b - 1 ::
          shat[j][k] == Transform(f, w, b, Segment(f, s, b, j), k))
    && (forall j: nat, k: nat | j < |rhat| && k < 2 * b - 1 ::
          rhat[j][k] == Transform(f, w, 2 * b - 1, Kernel(f, p, b, j), k))
  }

  predicate AllLong<E>(rows: seq<seq<E>>, n: int) {
    forall j: nat | j < |rows| :: |rows[j]| == n
  }

  /** Point `k` of `count` rows, from row `i` on. */
  method Gather<E>(rows: seq<seq<E>>, i: nat, count: nat, k: nat) returns (points: seq<E>)
    requires i + count <= |rows| && AllLong(rows, if rows == [] then 0 else |rows[0]|)
    requires rows != [] ==> k < |rows[0]|
    ensures |points| == count && forall j: nat | j < count :: |rows[i + j]| > k && points[j] == rows[i + j][k]
  {
    points := [];
    for j := 0 to count
      invariant |points| == j && forall v: nat | v < j :: |rows[i + v]| > k && points[v] == rows[i + v][k]
    {
      points := points + [rows[i + j][k]];
    }
  }

  method Spectra<E(!new)>(f: Field<E>, ghost w: E, powers: seq<E>, s: seq<E>, p: seq<E>, b: nat, segments: nat)
    returns (shat: seq<seq<E>>, rhat: seq<seq<E>>)
    requires f.Lawful() && b > 0 && IsTable(f, w, powers) && |powers| == 2 * b - 1
    ensures |shat| == segments && AreSpectra(f, w, s, p, b, shat, rhat)
  {
    shat, rhat := [], [];
    for j := 0 to segments
      invariant |shat| == j && AreSpectra(f, w, s, p, b, shat, rhat)
    {
      var input := SegmentSpectrum(f, w, powers, s, b, j);
      var kernel := KernelSpectrum(f, w, powers, p, b, j);
      shat, rhat := shat + [input], rhat + [kernel];
    }
  }

  /** The spectrum of output segment `i`, point by point. */
  method PointSums<E(!new)>(f: Field<E>, ghost w: E, ghost s: seq<E>, ghost p: seq<E>, b: nat, shat: seq<seq<E>>,
      rhat: seq<seq<E>>, i: nat) returns (chat: seq<E>)
    requires f.Lawful() && b > 0 && i < |shat| && AreSpectra(f, w, s, p, b, shat, rhat)
    ensures |chat| == 2 * b - 1
    ensures forall k: nat | k < 2 * b - 1 :: chat[k] == Spectrum(f, w, s, p, b, |shat| - i, i, k)
  {
    chat := [];
    for k := 0 to 2 * b - 1
      invariant |chat| == k && forall v: nat | v < k :: chat[v] == Spectrum(f, w, s, p, b, |shat| - i, i, v)
    {
      var sources := Gather(shat, 0, |shat| - i, k);
      var coefficients := Gather(rhat, i, |shat| - i, k);
      ghost var h := Pairs(f, w, s, p, b, i, k);
      forall j: nat | j < |sources| ensures h(j) == f.mul(coefficients[j], sources[j]) {
        assert sources[j] == shat[0 + j][k] && coefficients[j] == rhat[i + j][k];
        assert f.At(sources[j], coefficients[j], coefficients[j]);
      }
      var value := Fold(f, sources, coefficients, h);
      chat := chat + [value];
    }
  }

  /** The way back for one output. */
  method BackOne<E(!new)>(f: Field<E>, ghost w: E, powers: seq<E>, chat: seq<E>, b: nat, t: nat, ghost h: nat -> E)
    returns (r: E)
    requires f.Lawful() && t < b && IsTable(f, w, powers) && |powers| == |chat| == 2 * b - 1
    requires forall k: nat | k < |chat| :: h(k) == f.mul(Power(f, w, k * (t + 1)), chat[k])
    ensures r == Sum(f, 2 * b - 1, h)
  {
    var n, v := 2 * b - 1, 2 * b - 2 - t;
    var row: seq<E> := [];
    for k := 0 to n
      invariant |row| == k && forall i: nat | i < k :: row[i] == Power(f, w, i * (t + 1))
    {
      WayBack(f, w, n, k, v, t + 1);
      row := row + [powers[(n - k * v % n) % n]];
    }
    r := Fold(f, chat, row, h);
  }

  /** `hankel`: stage one, segment by segment. */
  method HankelStage<E(!new)>(f: Field<E>, ghost w: E, powers: seq<E>, s: seq<E>, p: seq<E>, b: nat)
    returns (t: seq<E>)
    requires f.Lawful() && b > 0 && IsRoot(f, w, 2 * b - 1) && IsTable(f, w, powers) && |powers| == 2 * b - 1
    requires |p| == |s| + 1
    ensures t == Hankel(f, s, p[1..])
  {
    var segments := (|s| + b - 1) / b;
    RoundUp(|s|, b);
    var shat, rhat := Spectra(f, w, powers, s, p, b, segments);
    t := [];
    ghost var goal := Hankel(f, s, p[1..]);
    for i := 0 to segments
      invariant t == FirstSegments(goal, i, b)
    {
      var chat := PointSums(f, w, s, p, b, shat, rhat, i);
      var rows := OutputSegment(f, w, powers, s, p, |s|, b, segments, i, chat);
      SegmentJoins(goal, t, rows, i, b);
      t := t + rows;
    }
  }

  lemma RoundUp(m: nat, b: nat)
    requires b > 0
    ensures var n := (m + b - 1) / b; m <= n * b && forall i: nat | i < n :: i * b < m
  {
    var n := (m + b - 1) / b;
    assert m + b - 1 == b * n + (m + b - 1) % b;
    forall i: nat | i < n ensures i * b < m {
      assert i * b <= (n - 1) * b == n * b - b;
    }
  }

  function FirstSegments<E>(goal: seq<E>, i: nat, b: nat): seq<E> {
    if i * b < |goal| then goal[..i * b] else goal
  }

  lemma SegmentJoins<E>(goal: seq<E>, done: seq<E>, rows: seq<E>, i: nat, b: nat)
    requires i * b < |goal| && done == FirstSegments(goal, i, b)
    requires |rows| == (if i * b + b <= |goal| then b else |goal| - i * b)
    requires forall t: nat | t < |rows| :: rows[t] == goal[i * b + t]
    ensures done + rows == FirstSegments(goal, i + 1, b)
  {
    assert (i + 1) * b == i * b + b;
  }

  /** The outputs of one segment; the last segment may be short. */
  method OutputSegment<E(!new)>(f: Field<E>, ghost w: E, powers: seq<E>, ghost s: seq<E>, ghost p: seq<E>, m: nat,
      b: nat, segments: nat, i: nat, chat: seq<E>) returns (rows: seq<E>)
    requires f.Lawful() && b > 0 && IsRoot(f, w, 2 * b - 1) && IsTable(f, w, powers) && m == |s|
    requires |powers| == |chat| == 2 * b - 1 && |p| == m + 1 && i < segments && i * b < m <= segments * b
    requires forall k: nat | k < 2 * b - 1 :: chat[k] == Spectrum(f, w, s, p, b, segments - i, i, k)
    ensures |rows| == (if i * b + b <= m then b else m - i * b)
    ensures forall t: nat | t < |rows| :: rows[t] == Hankel(f, s, p[1..])[i * b + t]
  {
    rows := [];
    var count := if i * b + b <= m then b else m - i * b;
    for t := 0 to count
      invariant |rows| == t && forall v: nat | v < t :: rows[v] == Hankel(f, s, p[1..])[i * b + v]
    {
      var value := OneOutput(f, w, powers, s, p, b, segments, i, t, chat);
      rows := rows + [value];
    }
  }

  method OneOutput<E(!new)>(f: Field<E>, ghost w: E, powers: seq<E>, ghost s: seq<E>, ghost p: seq<E>, b: nat,
      ghost segments: nat, ghost i: nat, t: nat, chat: seq<E>) returns (r: E)
    requires f.Lawful() && t < b && IsRoot(f, w, 2 * b - 1) && IsTable(f, w, powers)
    requires |powers| == |chat| == 2 * b - 1 && |p| == |s| + 1 && i < segments && i * b + t < |s| <= segments * b
    requires forall k: nat | k < 2 * b - 1 :: chat[k] == Spectrum(f, w, s, p, b, segments - i, i, k)
    ensures r == Hankel(f, s, p[1..])[i * b + t]
  {
    r := BackOne(f, w, powers, chat, b, t, OutputTerms(f, w, s, p, b, segments - i, i, t));
    SegmentsGiveHankel(f, w, s, p, b, segments, i, t);
  }

  // ----- stage two

  /** The coefficients of one half for the exponents below `m`, from the table of its root. */
  method HalfRow<E(!new)>(f: Field<E>, ghost g: E, a: nat, ghost b: nat, ghost i: nat, powers: seq<E>, k: nat, m: nat)
    returns (row: seq<E>)
    requires f.Lawful() && |powers| == a && IsTable(f, Power(f, g, b * i), powers)
    ensures |row| == m && forall n: nat | n < m :: row[n] == Half(f, g, a, b, i, k, n)
  {
    row := [];
    for n := 0 to m
      invariant |row| == n && forall v: nat | v < n :: row[v] == Half(f, g, a, b, i, k, v)
    {
      row := row + [powers[k % a * (n % a) % a]];
    }
  }

  /** The partial row of one residue: every `b`th entry with its coefficient. */
  method PartialRow<E(!new)>(f: Field<E>, row: seq<E>, t: seq<E>, b: nat, residue: nat, ghost rounds: nat,
      ghost h: nat -> E) returns (r: E)
    requires f.Lawful() && residue < b && |row| == |t| <= rounds * b
    requires forall q: nat :: h(q) == if q * b + residue < |t| then f.mul(row[q * b + residue], t[q * b + residue])
                                      else f.zero
    ensures r == Sum(f, rounds, h)
  {
    r := f.zero;
    var n := residue;
    ghost var q := 0;
    while n < |t|
      invariant n == q * b + residue && r == Sum(f, q, h) && (q == 0 || (q - 1) * b + residue < |t|)
    {
      r := f.add(r, f.mul(row[n], t[n]));
      OneMore(q, b);
      n, q := n + b, q + 1;
    }
    Covers(q, rounds, b, residue, |t|);
    RestIsZero(f, t, b, rounds, residue, q, h);
  }

  lemma OneMore(q: nat, b: nat)
    ensures (q + 1) * b == q * b + b
  {
  }

  lemma Covers(q: nat, rounds: nat, b: nat, residue: nat, m: nat)
    requires m <= rounds * b && (q == 0 || (q - 1) * b + residue < m)
    ensures q <= rounds
  {
    if q > rounds {
      Grows(rounds, q - 1, b);
    }
  }

  lemma Grows(x: nat, y: nat, b: nat)
    requires x <= y
    ensures x * b <= y * b
  {
  }

  lemma RestIsZero<E(!new)>(f: Field<E>, t: seq<E>, b: nat, rounds: nat, residue: nat, q: nat, h: nat -> E)
    requires f.Lawful() && |t| <= q * b + residue && q <= rounds
    requires forall n: nat | q <= n < rounds :: n * b + residue >= |t| ==> h(n) == f.zero
    ensures Sum(f, rounds, h) == Sum(f, q, h)
  {
    forall n: nat | q <= n < rounds ensures h(n) == f.zero {
      Grows(q, n, b);
    }
    SumCut(f, rounds, q, h);
  }

  /** The partial rows of all residues. */
  method Partials<E(!new)>(f: Field<E>, ghost g: E, a: nat, b: nat, ghost i: nat, apow: seq<E>, k: nat, t: seq<E>,
      ghost rounds: nat) returns (partials: seq<E>)
    requires f.Lawful() && |apow| == a && IsTable(f, Power(f, g, b * i), apow) && |t| <= rounds * b
    ensures |partials| == b && forall v: nat | v < b :: partials[v] == Partial(f, g, a, b, i, k, t, rounds, v)
  {
    var row := HalfRow(f, g, a, b, i, apow, k, |t|);
    partials := [];
    for residue := 0 to b
      invariant |partials| == residue
      invariant forall v: nat | v < residue :: partials[v] == Partial(f, g, a, b, i, k, t, rounds, v)
    {
      ghost var h := PartialTerms(f, g, a, b, i, k, t, residue);
      RowTerms(f, g, a, b, i, k, t, row, residue, h);
      var value := PartialRow(f, row, t, b, residue, rounds, h);
      partials := partials + [value];
    }
  }

  lemma RowTerms<E(!new)>(f: Field<E>, g: E, a: nat, b: nat, i: nat, k: nat, t: seq<E>, row: seq<E>, residue: nat,
      h: nat -> E)
    requires f.Lawful() && a > 0 && |row| == |t| && forall n: nat | n < |t| :: row[n] == Half(f, g, a, b, i, k, n)
    requires forall q: nat :: h(q) == f.mul(Half(f, g, a, b, i, k, q * b + residue), Entry(f, t, q * b + residue))
    ensures forall q: nat :: h(q) == if q * b + residue < |t| then f.mul(row[q * b + residue], t[q * b + residue])
                                     else f.zero
  {
    forall q: nat
      ensures h(q) == if q * b + residue < |t| then f.mul(row[q * b + residue], t[q * b + residue]) else f.zero
    {
      var c := Half(f, g, a, b, i, k, q * b + residue);
      assert f.At(c, f.zero, f.zero);
    }
  }

  /** `evaluate` for one column: a partial row for each residue, and the other half of the
      coefficients, scaled, over them. */
  method EvaluateStage<E(!new)>(f: Field<E>, ghost g: E, a: nat, b: nat, ghost i: nat, ghost j: nat, apow: seq<E>,
      bpow: seq<E>, scale: E, k: nat, t: seq<E>) returns (x: E)
    requires f.Lawful() && Splits(f, g, a, b, i, j) && |apow| == a && |bpow| == b
    requires IsTable(f, Power(f, g, b * i), apow) && IsTable(f, Power(f, g, a * j), bpow)
    ensures x == f.mul(scale, Eval(f, t, Power(f, g, k)))
  {
    ghost var rounds := (|t| + b - 1) / b;
    RoundUp(|t|, b);
    var partials := Partials(f, g, a, b, i, apow, k, t, rounds);
    var row := HalfRow(f, g, b, a, j, bpow, k, b);
    var coefficients := ScaleRow(f, scale, row);
    ghost var h := EvaluatedTerms(f, g, a, b, i, j, scale, k, t, rounds);
    forall v: nat | v < b ensures h(v) == f.mul(coefficients[v], partials[v]) {
      ScaleAt(f, scale, row, v);
    }
    x := Fold(f, partials, coefficients, h);
    EvaluatedIsEval(f, g, a, b, i, j, scale, k, t, rounds);
  }

  /** The tables of a solve: a root of odd order for the segments of `b`, and the two halves
      of a generator. */
  datatype Plan<E> = Plan(b: nat, powers: seq<E>, apow: seq<E>, bpow: seq<E>)

  ghost predicate Fits<E(!new)>(f: Field<E>, plan: Plan<E>, w: E, g: E, i: nat, j: nat) {
    && plan.b > 0 && |plan.powers| == 2 * plan.b - 1 && IsRoot(f, w, 2 * plan.b - 1) && IsTable(f, w, plan.powers)
    && Splits(f, g, |plan.apow|, |plan.bpow|, i, j)
    && IsTable(f, Power(f, g, |plan.bpow| * i), plan.apow) && IsTable(f, Power(f, g, |plan.apow| * j), plan.bpow)
  }

  /** `prepare` and `solve`: nothing without columns or with two nodes alike, otherwise what
      the two stages give for every column. */
  method Solve<E(!new)>(f: Field<E>, plan: Plan<E>, ghost w: E, ghost g: E, ghost i: nat, ghost j: nat, ks: seq<nat>,
      gs: seq<E>, us: seq<E>, s: seq<E>) returns (xs: Option<seq<E>>)
    requires f.Lawful() && Fits(f, plan, w, g, i, j) && |ks| == |gs| == |us| == |s|
    requires forall c | 0 <= c < |gs| :: gs[c] == Power(f, g, ks[c]) && us[c] != f.zero
    ensures xs.None? <==> gs == [] || !Distinct(gs)
    ensures xs.Some? ==> |xs.value| == |gs| && forall c | 0 <= c < |gs| :: xs.value[c] == TwoStage(f, gs, us[c], c, s)
  {
    var prepared := Prepare(f, gs, us);
    if prepared.None? {
      return None;
    }
    var (p, scales) := prepared.value;
    var t := HankelStage(f, w, plan.powers, s, p, plan.b);
    var out := EvaluateAll(f, plan, w, g, i, j, scales, ks, t);
    xs := Some(out);
  }

  method EvaluateAll<E(!new)>(f: Field<E>, plan: Plan<E>, ghost w: E, ghost g: E, ghost i: nat, ghost j: nat,
      scales: seq<E>, ks: seq<nat>, t: seq<E>) returns (out: seq<E>)
    requires f.Lawful() && Fits(f, plan, w, g, i, j) && |scales| == |ks|
    ensures |out| == |ks| && forall c | 0 <= c < |ks| :: out[c] == f.mul(scales[c], Eval(f, t, Power(f, g, ks[c])))
  {
    out := [];
    for c := 0 to |ks|
      invariant |out| == c && forall v | 0 <= v < c :: out[v] == f.mul(scales[v], Eval(f, t, Power(f, g, ks[v])))
    {
      var x := EvaluateStage(f, g, |plan.apow|, |plan.bpow|, i, j, plan.apow, plan.bpow, scales[c], ks[c], t);
      out := out + [x];
    }
  }
}
