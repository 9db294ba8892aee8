/** The sentence chunker `chunk_text` (app.py:64-70): the sentences of a
    text are grouped, in order, into runs of at most `max_sentences`, and
    each run is joined with single spaces into one chunk.  The sentence
    splitter (`nltk.sent_tokenize`) is not modelled: its result, the list of
    sentences, is the input. */
module Chunking {
  import opened Text

  /** What `chunk_text` produces: the chunks, or the `ValueError` that
      `range(0, n, 0)` raises when `max_sentences` is zero. */
  datatype ChunkResult = Chunks(chunks: seq<string>) | StepIsZero

  /** The consecutive runs of at most `m` sentences, front to back; the
      sentences of one chunk before they are joined. */
  function Groups(ss: seq<string>, m: nat): seq<seq<string>>
    requires m > 0
    decreases |ss|
  {
    if ss == [] then []
    else if |ss| <= m then [ss]
    else [ss[..m]] + Groups(ss[m..], m)
  }

  /** Each group joined with single spaces. */
  function JoinEach(gs: seq<seq<string>>): (r: seq<string>)
    ensures |r| == |gs|
    ensures forall j :: 0 <= j < |gs| ==> r[j] == Join(" ", gs[j])
  {
    seq(|gs|, j requires 0 <= j < |gs| => Join(" ", gs[j]))
  }

  /** The sentences of all groups, in order. */
  function Flatten(gs: seq<seq<string>>): seq<string>
  {
    if gs == [] then [] else gs[0] + Flatten(gs[1..])
  }

  function CeilDiv(n: nat, m: nat): nat
    requires m > 0
  {
    (n + m - 1) / m
  }

  function Min(a: int, b: int): int { if a <= b then a else b }

  /** There are ceil(n / m) groups. */
  lemma {:induction false} GroupsCount(ss: seq<string>, m: nat)
    requires m > 0
    ensures |Groups(ss, m)| == CeilDiv(|ss|, m)
    decreases |ss|
  {
    var n := |ss|;
    if n == 0 {
    } else if n <= m {
      DivUnique(n + m - 1, m, 1, n - 1);
    } else {
      GroupsCount(ss[m..], m);
      assert |Groups(ss, m)| == 1 + |Groups(ss[m..], m)|;
      DivStep(n + m - 1, m);
    }
  }

  lemma DivStep(x: int, m: int)
    requires m > 0 && x >= m
    ensures x / m == (x - m) / m + 1
  {
    var q, r := (x - m) / m, (x - m) % m;
    assert x - m == q * m + r;
    assert x == (q + 1) * m + r;
    DivUnique(x, m, q + 1, r);
  }

  /** Euclidean division is determined by quotient and remainder. */
  lemma DivUnique(x: int, m: int, q: int, r: int)
    requires m > 0 && 0 <= r < m && x == q * m + r
    ensures x / m == q
  {
    var q0, r0 := x / m, x % m;
    assert x == q0 * m + r0 && 0 <= r0 < m;
    if q0 > q {
      assert (q0 - q) * m == r - r0;
      MulAtLeast(m, q0 - q);
    } else if q0 < q {
      assert (q - q0) * m == r0 - r;
      MulAtLeast(m, q - q0);
    }
  }

  lemma {:induction false} MulAtLeast(m: int, k: int)
    requires m > 0 && k >= 1
    ensures k * m >= m
    decreases k
  {
    if k > 1 {
      MulAtLeast(m, k - 1);
      assert k * m == (k - 1) * m + m;
    }
  }

  /** Flattening the groups gives back the sentence list, in order: no
      sentence is lost, repeated or moved. */
  lemma {:induction false} GroupsFlatten(ss: seq<string>, m: nat)
    requires m > 0
    ensures Flatten(Groups(ss, m)) == ss
    decreases |ss|
  {
    if ss != [] && |ss| > m {
      GroupsFlatten(ss[m..], m);
      assert Groups(ss, m)[1..] == Groups(ss[m..], m);
      assert ss == ss[..m] + ss[m..];
    } else if ss != [] {
      assert Groups(ss, m)[1..] == [];
    }
  }

  /** Every group holds between 1 and m sentences, and all groups but the
      last hold exactly m. */
  lemma {:induction false} GroupsSizes(ss: seq<string>, m: nat)
    requires m > 0
    ensures forall j :: 0 <= j < |Groups(ss, m)| ==>
              1 <= |Groups(ss, m)[j]| <= m
              && (j < |Groups(ss, m)| - 1 ==> |Groups(ss, m)[j]| == m)
    decreases |ss|
  {
    if |ss| > m {
      GroupsSizes(ss[m..], m);
      var gs := Groups(ss, m);
      assert forall j :: 1 <= j < |gs| ==> gs[j] == Groups(ss[m..], m)[j - 1];
    }
  }

  /** Group j is the Python slice `ss[j*m : j*m + m]`, cut short at the end
      of the list: the slice `chunk_text` takes on its j-th iteration. */
  lemma {:induction false} GroupIsSlice(ss: seq<string>, m: nat, j: nat)
    requires m > 0 && j < |Groups(ss, m)|
    ensures j * m < |ss|
    ensures Groups(ss, m)[j] == ss[j * m .. Min(j * m + m, |ss|)]
    decreases |ss|
  {
    if j > 0 {
      var tail := ss[m..];
      assert Groups(ss, m)[j] == Groups(tail, m)[j - 1];
      GroupIsSlice(tail, m, j - 1);
      assert (j - 1) * m + m == j * m;
      assert tail[(j - 1) * m .. Min((j - 1) * m + m, |tail|)]
          == ss[j * m .. Min(j * m + m, |ss|)];
    }
  }

  /** The groups of the sentences from `i` on: the slice `ss[i : i + m]`
      first, then the groups of the sentences after it. */
  lemma GroupsStep(ss: seq<string>, m: nat, i: nat)
    requires m > 0 && i < |ss|
    ensures JoinEach(Groups(ss[i..], m))
         == [Join(" ", ss[i..Min(i + m, |ss|)])] + JoinEach(Groups(ss[Min(i + m, |ss|)..], m))
  {
    var rest := ss[i..];
    var end := Min(i + m, |ss|);
    if |rest| > m {
      assert rest[..m] == ss[i..end];
      assert rest[m..] == ss[end..];
      assert Groups(rest, m) == [ss[i..end]] + Groups(ss[end..], m);
    } else {
      assert rest == ss[i..end];
      assert ss[end..] == [];
      assert Groups(rest, m) == [ss[i..end]];
    }
  }

  /** `chunk_text(text, max_sentences)` with `sentences` standing for
      `nltk.sent_tokenize(text)`; the loop steps `i` through
      `range(0, len(sentences), max_sentences)`. */
  method ChunkText(sentences: seq<string>, maxSentences: int) returns (r: ChunkResult)
    ensures maxSentences == 0 <==> r == StepIsZero
    ensures maxSentences < 0 ==> r == Chunks([])
    ensures maxSentences > 0 ==> r == Chunks(JoinEach(Groups(sentences, maxSentences)))
  {
    if maxSentences == 0 {
      return StepIsZero;
    }
    if maxSentences < 0 {
      return Chunks([]);
    }
    var m: nat := maxSentences;
    var chunks: seq<string> := [];
    var i: nat := 0;
    while i < |sentences|
      invariant chunks + JoinEach(Groups(sentences[Min(i, |sentences|)..], m))
                == JoinEach(Groups(sentences, m))
      decreases |sentences| - i
    {
      var end := Min(i + m, |sentences|);
      var chunk := Join(" ", sentences[i..end]);
      GroupsStep(sentences, m, i);
      chunks := chunks + [chunk];
      i := i + m;
    }
    assert sentences[Min(i, |sentences|)..] == [];
    return Chunks(chunks);
  }

  /** For a positive `max_sentences`, `chunk_text` yields exactly
      ceil(n / max_sentences) chunks; chunk j is the space-join of the
      sentences j*m up to (but excluding) j*m + m, cut at n; and these
      sentence runs, put back together, are the sentence list; zero
      sentences yield no chunks. */
  lemma ChunkTextShape(sentences: seq<string>, m: nat)
    requires m > 0
    ensures |JoinEach(Groups(sentences, m))| == CeilDiv(|sentences|, m)
    ensures forall j :: 0 <= j < CeilDiv(|sentences|, m) ==>
              j * m < |sentences| &&
              JoinEach(Groups(sentences, m))[j] == Join(" ", sentences[j * m .. Min(j * m + m, |sentences|)])
    ensures Flatten(Groups(sentences, m)) == sentences
    ensures sentences == [] ==> JoinEach(Groups(sentences, m)) == []
  {
    GroupsCount(sentences, m);
    GroupsFlatten(sentences, m);
    ChunksAreSlices(sentences, m);
  }

  /** Chunk j is the space-join of the slice taken on iteration j. */
  lemma ChunksAreSlices(sentences: seq<string>, m: nat)
    requires m > 0
    ensures forall j :: 0 <= j < |Groups(sentences, m)| ==>
              j * m < |sentences| &&
              JoinEach(Groups(sentences, m))[j] == Join(" ", sentences[j * m .. Min(j * m + m, |sentences|)])
  {
    var gs := Groups(sentences, m);
    forall j | 0 <= j < |gs|
      ensures j * m < |sentences|
      ensures JoinEach(gs)[j] == Join(" ", sentences[j * m .. Min(j * m + m, |sentences|)])
    {
      GroupIsSlice(sentences, m, j);
    }
  }
}
