/** Cutting a paragraph into drawn lines of at most a fixed number of characters:
    the `while len(paragraph) > max_chars` loop of msg_to_pdf_bytes. */
module Wrapping {
  import opened Text
  import opened Lines

  /** The longest line drawn for the body (max_chars). */
  const MaxChars: nat := 110

  /** The chunks the loop draws for one paragraph: while more than `width`
      characters remain, the first `width` of them; then whatever is left, even
      when that is empty. */
  function Wrap(p: string, width: nat): (chunks: seq<string>)
    requires width > 0
    ensures |chunks| >= 1
    ensures forall i :: 0 <= i < |chunks| ==> |chunks[i]| <= width
    decreases |p|
  {
    if |p| <= width then [p] else [p[..width]] + Wrap(p[width..], width)
  }

  /** Wrapping loses and reorders nothing: the chunks, joined, are the paragraph. */
  lemma {:induction false} WrapConcat(p: string, width: nat)
    requires width > 0
    ensures Concat(Wrap(p, width)) == p
    decreases |p|
  {
    if |p| > width {
      WrapConcat(p[width..], width);
      assert p == p[..width] + p[width..];
    }
  }

  /** Every chunk has at most `width` characters, every chunk but the last exactly
      `width`, and the last is empty only when the paragraph is. */
  lemma {:induction false} WrapChunkLengths(p: string, width: nat)
    requires width > 0
    ensures var c := Wrap(p, width);
      |c| >= 1 &&
      (forall i :: 0 <= i < |c| ==> |c[i]| <= width) &&
      (forall i :: 0 <= i < |c| - 1 ==> |c[i]| == width) &&
      (|c[|c| - 1]| == 0 <==> p == [])
    decreases |p|
  {
    if |p| > width {
      WrapChunkLengths(p[width..], width);
      var c := Wrap(p, width);
      assert c[1..] == Wrap(p[width..], width);
    }
  }

  /** A paragraph of n > 0 characters is drawn as ceil(n / width) lines, the k
      with (k - 1) * width < n <= k * width; an empty one as one line. */
  lemma {:induction false} WrapCount(p: string, width: nat)
    requires width > 0
    ensures var k := |Wrap(p, width)|;
      if |p| == 0 then k == 1 else (k - 1) * width < |p| <= k * width
    decreases |p|
  {
    if |p| > width {
      WrapCount(p[width..], width);
      var k' := |Wrap(p[width..], width)|;
      assert |Wrap(p, width)| == k' + 1;
      assert (k' + 1) * width == k' * width + width;
    }
  }

  /** The same for the body's width: max(1, ceil(n / 110)) lines. */
  lemma WrapCountMaxChars(p: string)
    ensures |Wrap(p, MaxChars)| == if |p| == 0 then 1 else (|p| + MaxChars - 1) / MaxChars
  {
  }

  /** Every character of a chunk comes from the paragraph. */
  lemma {:induction false} WrapCharsFromParagraph(p: string, width: nat)
    requires width > 0
    ensures var c := Wrap(p, width);
      forall i, j :: 0 <= i < |c| && 0 <= j < |c[i]| ==> c[i][j] in p
    decreases |p|
  {
    if |p| > width {
      WrapCharsFromParagraph(p[width..], width);
      var c := Wrap(p, width);
      forall i, j | 0 <= i < |c| && 0 <= j < |c[i]| ensures c[i][j] in p {
        if i == 0 {
          assert c[0][j] == p[j];
        } else {
          assert c[i] == Wrap(p[width..], width)[i - 1];
          assert c[i][j] in p[width..];
        }
      }
    }
  }

  /** The chunks of every paragraph in turn: the lines the body loop draws. */
  function WrapAll(ps: seq<string>, width: nat): seq<string>
    requires width > 0
  {
    if ps == [] then [] else WrapAll(ps[..|ps| - 1], width) + Wrap(ps[|ps| - 1], width)
  }

  /** Joined, the drawn lines are the paragraphs joined. */
  lemma {:induction false} WrapAllConcat(ps: seq<string>, width: nat)
    requires width > 0
    ensures Concat(WrapAll(ps, width)) == Concat(ps)
  {
    if ps != [] {
      var init, last := ps[..|ps| - 1], ps[|ps| - 1];
      WrapAllConcat(init, width);
      ConcatAppend(WrapAll(init, width), Wrap(last, width));
      WrapConcat(last, width);
      assert ps == init + [last];
      ConcatAppend(init, [last]);
      assert Concat([last]) == last + Concat([]);
    }
  }

  /** Each paragraph gives at least one line; no line is longer than `width`; a line
      holds a line break only when some paragraph does. */
  lemma {:induction false} WrapAllLines(ps: seq<string>, width: nat)
    requires width > 0
    ensures var r := WrapAll(ps, width);
      |r| >= |ps| &&
      (forall k :: 0 <= k < |r| ==> |r[k]| <= width) &&
      ((forall i :: 0 <= i < |ps| ==> NoBreaks(ps[i])) ==> forall k :: 0 <= k < |r| ==> NoBreaks(r[k]))
  {
    if ps != [] {
      var init, last := ps[..|ps| - 1], ps[|ps| - 1];
      WrapAllLines(init, width);
      WrapChunkLengths(last, width);
      WrapCharsFromParagraph(last, width);
      var a, b := WrapAll(init, width), Wrap(last, width);
      assert WrapAll(ps, width) == a + b;
      if forall i :: 0 <= i < |ps| ==> NoBreaks(ps[i]) {
        assert forall i :: 0 <= i < |init| ==> init[i] == ps[i];
        assert NoBreaks(last);
        forall k | 0 <= k < |b| ensures NoBreaks(b[k]) {
          forall j | 0 <= j < |b[k]| ensures !IsLineBreak(b[k][j]) {
            assert b[k][j] in last;
          }
        }
      }
    }
  }
}
