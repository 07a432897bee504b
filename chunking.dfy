/**
 * Splitting pasted text into block-sized pieces: the `while s:` loop that
 * insertData and insertQuestionmarks run before they place anything.
 */
module Chunking {

  /** The pieces joined back together, in order, with nothing between them. */
  function Concat(pieces: seq<string>): string {
    if pieces == [] then "" else Concat(pieces[..|pieces| - 1]) + pieces[|pieces| - 1]
  }

  lemma {:induction false} ConcatCons(p: string, rest: seq<string>)
    ensures Concat([p] + rest) == p + Concat(rest)
    decreases |rest|
  {
    if rest != [] {
      var all := [p] + rest;
      assert all[..|all| - 1] == [p] + rest[..|rest| - 1];
      ConcatCons(p, rest[..|rest| - 1]);
    }
  }

  /**
   * The pieces `s[:width]`, `s[width:2*width]`, ... that the loop appends:
   * Python's slice stops at the end of the string, so the last piece is short.
   */
  function Chunks(s: string, width: nat): (pieces: seq<string>)
    requires width > 0
    ensures pieces == [] <==> s == []
    ensures forall k :: 0 <= k < |pieces| ==> 0 < |pieces[k]| <= width
    ensures forall k :: 0 <= k < |pieces| - 1 ==> |pieces[k]| == width
    decreases |s|
  {
    if s == [] then []
    else
      var cut := if |s| < width then |s| else width;
      [s[..cut]] + Chunks(s[cut..], width)
  }

  /** `data = []; while s: data.append(s[:n]); s = s[n:]`, with n the block size in bytes. */
  method Chunk(pasted: string, width: nat) returns (data: seq<string>)
    requires width > 0
    ensures data == Chunks(pasted, width)
  {
    var s := pasted;
    data := [];
    while s != []
      invariant data + Chunks(s, width) == Chunks(pasted, width)
      decreases |s|
    {
      var cut := if |s| < width then |s| else width;
      var piece, rest := s[..cut], s[cut..];
      ChunkStep(data, s, width);
      data := data + [piece];
      s := rest;
    }
  }

  lemma ChunkStep(data: seq<string>, s: string, width: nat)
    requires width > 0 && s != []
    ensures var cut := if |s| < width then |s| else width;
            data + Chunks(s, width) == (data + [s[..cut]]) + Chunks(s[cut..], width)
  {
    var cut := if |s| < width then |s| else width;
    assert Chunks(s, width) == [s[..cut]] + Chunks(s[cut..], width);
  }

  /** int(blockSize / 8): the piece length, in characters, for a block size in bits. */
  function PieceWidth(blockSize: nat): (w: nat)
    ensures w > 0 <==> blockSize >= 8
    ensures w * 8 <= blockSize < w * 8 + 8
  {
    blockSize / 8
  }

  /**
   * The argument QAction.triggered hands to a slot: `checked`, False for an
   * action that is not checkable, which Python's arithmetic reads as 0.
   */
  const TriggeredChecked: nat := 0

  /** One pass of the `while s:` body: append s[:w] to data and drop it from s. */
  function Pass(data: seq<string>, s: string, w: nat): (r: (seq<string>, string))
    ensures |r.0| == |data| + 1 && r.0[..|data|] == data
    ensures r.0[|data|] + r.1 == s
  {
    var cut := if |s| < w then |s| else w;
    assert s[..cut] + s[cut..] == s;
    (data + [s[..cut]], s[cut..])
  }

  /** The loop's (data, s) after at most n passes, stopping as soon as s is empty. */
  function Passes(data: seq<string>, s: string, w: nat, n: nat): (seq<string>, string)
    decreases n
  {
    if n == 0 || s == [] then (data, s)
    else
      var next := Pass(data, s, w);
      Passes(next.0, next.1, w, n - 1)
  }

  /**
   * With the piece length the menu's `checked` argument gives, a non-empty
   * paste never shrinks: after any number of passes s is unchanged and data
   * has gained only empty pieces, so `while s:` never ends.
   */
  lemma {:induction false} ZeroWidthNeverEnds(data: seq<string>, s: string, n: nat)
    requires s != []
    ensures Passes(data, s, PieceWidth(TriggeredChecked), n) == (data + seq(n, _ => ""), s)
    decreases n
  {
    assert PieceWidth(TriggeredChecked) == 0;
    if n > 0 {
      assert Pass(data, s, 0) == (data + [""], s);
      assert Passes(data, s, 0, n) == Passes(data + [""], s, 0, n - 1);
      ZeroWidthNeverEnds(data + [""], s, n - 1);
      assert (data + [""]) + seq(n - 1, _ => "") == data + seq(n, _ => "");
    } else {
      assert data + seq(n, _ => "") == data;
    }
  }

  /**
   * With a positive piece length the loop ends within |s| passes, and data
   * has gained exactly the pieces Chunks describes.
   */
  lemma {:induction false} PassesEndWithChunks(data: seq<string>, s: string, w: nat, n: nat)
    requires w > 0 && n >= |s|
    ensures Passes(data, s, w, n) == (data + Chunks(s, w), "")
    decreases |s|
  {
    if s == [] {
      assert data + Chunks(s, w) == data;
    } else {
      var cut := if |s| < w then |s| else w;
      ChunkStep(data, s, w);
      PassesEndWithChunks(data + [s[..cut]], s[cut..], w, n - 1);
    }
  }

  /** The pieces put back together give the pasted text. */
  lemma {:induction false} ChunksConcat(s: string, width: nat)
    requires width > 0
    ensures Concat(Chunks(s, width)) == s
    decreases |s|
  {
    if s != [] {
      var cut := if |s| < width then |s| else width;
      ChunksConcat(s[cut..], width);
      ConcatCons(s[..cut], Chunks(s[cut..], width));
      assert s[..cut] + s[cut..] == s;
    }
  }

  /** `"?" * len(s)`: the placeholder text of insertQuestionmarks. */
  function Placeholders(s: string): (q: string)
    ensures |q| == |s|
    ensures forall i :: 0 <= i < |q| ==> q[i] == '?'
  {
    seq(|s|, _ => '?')
  }

  predicate AllQuestionmarks(t: string) {
    forall i :: 0 <= i < |t| ==> t[i] == '?'
  }

  /**
   * Chunking the placeholder text gives as many pieces as chunking the text
   * itself, each all '?' and as long as the piece of the text it stands for.
   */
  lemma {:induction false} PlaceholderChunks(s: string, width: nat)
    requires width > 0
    ensures |Chunks(Placeholders(s), width)| == |Chunks(s, width)|
    ensures forall k :: 0 <= k < |Chunks(s, width)| ==>
              |Chunks(Placeholders(s), width)[k]| == |Chunks(s, width)[k]| &&
              AllQuestionmarks(Chunks(Placeholders(s), width)[k])
    decreases |s|
  {
    if s != [] {
      var cut := if |s| < width then |s| else width;
      var q := Placeholders(s);
      assert Placeholders(s[cut..]) == q[cut..];
      PlaceholderChunks(s[cut..], width);
      var cs, cq := Chunks(s, width), Chunks(q, width);
      assert cs == [s[..cut]] + Chunks(s[cut..], width);
      assert cq == [q[..cut]] + Chunks(q[cut..], width);
      forall k | 0 <= k < |cs|
        ensures |cq[k]| == |cs[k]| && AllQuestionmarks(cq[k])
      {
        if k > 0 {
          assert cs[k] == Chunks(s[cut..], width)[k - 1];
          assert cq[k] == Chunks(q[cut..], width)[k - 1];
        }
      }
    }
  }
}
