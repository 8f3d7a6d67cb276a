/**
 * `chunk_text`: split a text into whitespace-separated words and emit
 * windows of `size` words whose starts advance by `size - overlap`
 * words, each window joined back with single spaces.
 */
module Chunking {
  import opened Wrappers
  import Py

  /** The defaults `add_documents` relies on: 300-word windows overlapping by 50 words. */
  const ChunkSize: int := 300
  const Overlap: int := 50

  /** `range()` raises `ValueError` when `size - overlap` is zero. */
  datatype ChunkError = ZeroStep

  /** The word windows `words[i:i + size]`, one per `i` in `range(0, len(words), step)`. */
  function Windows(words: seq<string>, size: int, step: int): seq<seq<string>>
    requires step != 0
  {
    var starts := Py.Range(0, |words|, step);
    seq(|starts|, j requires 0 <= j < |starts| => Py.Slice(words, starts[j], starts[j] + size))
  }

  /** `" ".join(w)` for every window `w`. */
  function JoinEach(ws: seq<seq<string>>): seq<string>
  {
    seq(|ws|, j requires 0 <= j < |ws| => Py.Join(" ", ws[j]))
  }

  /** `s.split()` for every string `s`. */
  function SplitEach(cs: seq<string>): seq<seq<string>>
  {
    seq(|cs|, j requires 0 <= j < |cs| => Py.Split(cs[j]))
  }

  /** The concatenation of a sequence of word sequences. */
  function Concat(wss: seq<seq<string>>): seq<string>
  {
    if wss == [] then [] else Concat(wss[..|wss| - 1]) + wss[|wss| - 1]
  }

  /** What `chunk_text(text, size, overlap)` returns, or the error it raises. */
  function Chunks(text: string, size: int, overlap: int): (r: Result<seq<string>, ChunkError>)
    ensures r.Failure? <==> size == overlap
  {
    var step := size - overlap;
    if step == 0 then Failure(ZeroStep) else Success(JoinEach(Windows(Py.Split(text), size, step)))
  }

  /** `chunk_text`, building the list of chunks one window at a time. */
  method ChunkText(text: string, size: int, overlap: int) returns (r: Result<seq<string>, ChunkError>)
    ensures r == Chunks(text, size, overlap)
  {
    var words := Py.Split(text);
    var step := size - overlap;
    if step == 0 {
      return Failure(ZeroStep);
    }
    ghost var starts := Py.Range(0, |words|, step);
    ghost var ws := Windows(words, size, step);
    var chunks: seq<string> := [];
    var i := 0;
    ghost var j := 0;
    while Py.InRange(i, |words|, step)
      invariant 0 <= j <= |starts|
      invariant starts[j..] == Py.Range(i, |words|, step)
      invariant chunks == JoinEach(ws[..j])
      decreases if step > 0 then |words| - i else i - |words|
    {
      assert starts[j..] == [i] + Py.Range(i + step, |words|, step);
      assert starts[j] == i && starts[j + 1..] == Py.Range(i + step, |words|, step);
      var chunk := Py.Join(" ", Py.Slice(words, i, i + size));
      assert chunk == Py.Join(" ", ws[j]);
      chunks := chunks + [chunk];
      i := i + step;
      j := j + 1;
      assert ws[..j] == ws[..j - 1] + [ws[j - 1]];
    }
    assert j == |starts|;
    assert ws[..j] == ws;
    return Success(chunks);
  }

  // ---------------------------------------------------------------------
  // Properties, for 0 <= overlap < size (so the step size - overlap is positive)
  // ---------------------------------------------------------------------

  lemma MulMonotone(a: int, b: int, s: int)
    requires a <= b && s >= 0
    ensures a * s <= b * s
  {
    assert b * s - a * s == (b - a) * s;
  }

  /** With a positive step there are `ceil(len(words) / step)` chunks. */
  lemma ChunkCount(text: string, size: int, overlap: int)
    requires 0 <= overlap < size
    ensures var step, n := size - overlap, |Py.Split(text)|;
            |Chunks(text, size, overlap).value| == (n + step - 1) / step
  {
    var words := Py.Split(text);
    var step, n := size - overlap, |words|;
    assert |Chunks(text, size, overlap).value| == |Py.Range(0, n, step)| by {
      assert Chunks(text, size, overlap).value == JoinEach(Windows(words, size, step));
    }
    Py.RangeLength(0, n, step);
  }

  /** The start of window `j` is `j * step`, and it lies inside the word sequence. */
  lemma WindowStart(words: seq<string>, size: int, overlap: int, j: int)
    requires 0 <= overlap < size
    requires 0 <= j < |Windows(words, size, size - overlap)|
    ensures var step := size - overlap;
            var a := j * step;
            var b := if a + size < |words| then a + size else |words|;
            0 <= a < b <= |words| && b - a <= size &&
            Windows(words, size, step)[j] == words[a..b]
  {
    var step := size - overlap;
    var starts := Py.Range(0, |words|, step);
    Py.RangeAscending(0, |words|, step);
    assert starts[j] == j * step < |words|;
    MulMonotone(0, j, step);
    Py.SliceNonNegative(words, j * step, j * step + size);
  }

  /**
   * Chunk `j` is `" ".join(words[j*step : j*step + size])`: its window
   * starts at `j * step`, holds between 1 and `size` words, and splitting
   * the chunk again gives exactly those words.
   */
  lemma ChunkAt(text: string, size: int, overlap: int, j: int)
    requires 0 <= overlap < size
    requires 0 <= j < |Chunks(text, size, overlap).value|
    ensures var words, step := Py.Split(text), size - overlap;
            var a := j * step;
            var b := if a + size < |words| then a + size else |words|;
            var chunk := Chunks(text, size, overlap).value[j];
            0 <= a < b <= |words| && 1 <= b - a <= size &&
            chunk == Py.Join(" ", words[a..b]) && Py.Split(chunk) == words[a..b]
  {
    var words, step := Py.Split(text), size - overlap;
    var ws := Windows(words, size, step);
    WindowStart(words, size, overlap, j);
    var a := j * step;
    var b := if a + size < |words| then a + size else |words|;
    assert Chunks(text, size, overlap).value[j] == Py.Join(" ", words[a..b]) by {
      assert Chunks(text, size, overlap).value == JoinEach(ws);
      assert ws[j] == words[a..b];
    }
    Py.SplitWords(text);
    Py.SplitJoin(words[a..b]);
  }

  /** Every word of the text appears in some chunk, at the matching position of that chunk. */
  lemma Coverage(text: string, size: int, overlap: int, i: int) returns (j: int)
    requires 0 <= overlap < size
    requires 0 <= i < |Py.Split(text)|
    ensures var chunks, step := Chunks(text, size, overlap).value, size - overlap;
            0 <= j < |chunks| && j * step <= i &&
            i - j * step < |Py.Split(chunks[j])| &&
            Py.Split(chunks[j])[i - j * step] == Py.Split(text)[i]
  {
    var words, step := Py.Split(text), size - overlap;
    var starts := Py.Range(0, |words|, step);
    j := FloorDiv(i, step);
    assert j < |starts| by {
      Py.RangeAscending(0, |words|, step);
      if j >= |starts| {
        MulMonotone(|starts|, j, step);
        assert false;
      }
    }
    assert |Chunks(text, size, overlap).value| == |starts| by {
      assert Chunks(text, size, overlap).value == JoinEach(Windows(words, size, step));
    }
    var chunk := Chunks(text, size, overlap).value[j];
    var a := j * step;
    var b := if a + size < |words| then a + size else |words|;
    assert Py.Split(chunk) == words[a..b] by {
      ChunkAt(text, size, overlap, j);
    }
    assert a <= i < b;
    assert Py.Split(chunk)[i - a] == words[i];
  }

  /** The window that holds position `i` under a positive step. */
  lemma FloorDiv(i: int, step: int) returns (j: int)
    requires i >= 0 && step > 0
    ensures j >= 0 && j * step <= i < j * step + step
  {
    j := i / step;
    assert i == j * step + i % step;
    if j < 0 {
      MulMonotone(j, -1, step);
    }
  }

  /** A step of `size` windows the first `m` windows onto exactly the first `min(m * size, n)` words. */
  lemma {:induction false} DisjointPrefix(words: seq<string>, size: int, m: int)
    requires size > 0
    requires 0 <= m <= |Windows(words, size, size)|
    ensures var ws := Windows(words, size, size);
            m * size <= |words| || m == |ws|
    ensures var ws := Windows(words, size, size);
            Concat(ws[..m]) == words[..if m * size < |words| then m * size else |words|]
  {
    var ws := Windows(words, size, size);
    if m == 0 {
      assert ws[..0] == [];
    } else {
      var a := (m - 1) * size;
      var b := if m * size < |words| then m * size else |words|;
      assert a + size == m * size;
      DisjointPrefix(words, size, m - 1);
      assert ws[m - 1] == words[a..b] by {
        WindowStart(words, size, 0, m - 1);
      }
      assert Concat(ws[..m]) == Concat(ws[..m - 1]) + ws[m - 1] by {
        assert ws[..m][..m - 1] == ws[..m - 1];
      }
      if m < |ws| {
        assert m * size < |words| by {
          WindowStart(words, size, 0, m);
        }
      }
      assert words[..a] + words[a..b] == words[..b];
    }
  }

  /**
   * With no overlap the chunks partition the words: splitting every chunk
   * and concatenating gives back the words of the text, in order.
   */
  lemma NoOverlapPartition(text: string, size: int)
    requires size > 0
    ensures Concat(SplitEach(Chunks(text, size, 0).value)) == Py.Split(text)
  {
    var words := Py.Split(text);
    var ws := Windows(words, size, size);
    var chunks := Chunks(text, size, 0).value;
    assert chunks == JoinEach(ws);
    Py.SplitWords(text);
    forall j | 0 <= j < |chunks|
      ensures Py.Split(chunks[j]) == ws[j]
    {
      WindowStart(words, size, 0, j);
      assert chunks[j] == Py.Join(" ", ws[j]);
      Py.SplitJoin(ws[j]);
    }
    assert SplitEach(chunks) == ws;
    DisjointPrefix(words, size, |ws|);
    Py.RangeAscending(0, |words|, size);
    assert ws[..|ws|] == ws;
  }

  /**
   * Empty or all-whitespace text yields no chunks; with a positive step
   * that is the only way to get none. A negative step yields none at all.
   */
  lemma BlankText(text: string, size: int, overlap: int)
    requires size != overlap
    ensures (forall i :: 0 <= i < |text| ==> Py.IsSpace(text[i])) ==> Chunks(text, size, overlap) == Success([])
    ensures size > overlap ==>
              (Chunks(text, size, overlap) == Success([]) <==> forall i :: 0 <= i < |text| ==> Py.IsSpace(text[i]))
    ensures size < overlap ==> Chunks(text, size, overlap) == Success([])
  {
    var words, step := Py.Split(text), size - overlap;
    var starts := Py.Range(0, |words|, step);
    assert Chunks(text, size, overlap) == Success(JoinEach(Windows(words, size, step)));
    assert |JoinEach(Windows(words, size, step))| == |starts|;
    Py.SplitEmptyIffBlank(text);
    if step < 0 {
      Py.RangeDescendingEmpty(0, |words|, step);
    } else if words != [] {
      assert starts == [0] + Py.Range(step, |words|, step);
    }
  }
}
