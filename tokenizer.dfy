/** The tokenizer every extractor starts with (postprocess.py, repeated for
    each card type): delete every '.', split on '|', strip each piece and keep
    the pieces that are longer than two characters. */
module Tokenizer {
  import opened Text

  /** A piece survives when it is longer than two characters after stripping. */
  predicate IsLong(piece: string) {
    |Strip(piece)| > 2
  }

  /** The stripped long pieces, in order: the list comprehension
      [p.strip() for p in pieces if len(p.strip()) > 2]. filter_lines keeps
      lines by the same rule. */
  function KeepLong(pieces: seq<string>): (r: seq<string>)
    ensures |r| <= |pieces|
    ensures forall k :: 0 <= k < |r| ==> IsStripped(r[k]) && |r[k]| > 2
    decreases |pieces|
  {
    if pieces == [] then []
    else
      var init := KeepLong(pieces[..|pieces| - 1]);
      var last := pieces[|pieces| - 1];
      if IsLong(last) then init + [Strip(last)] else init
  }

  /** KeepLong over a window grown by one piece. */
  lemma KeepLongExtend(pieces: seq<string>, a: nat, j: nat)
    requires a <= j < |pieces|
    ensures KeepLong(pieces[a..j + 1]) ==
      if IsLong(pieces[j]) then KeepLong(pieces[a..j]) + [Strip(pieces[j])] else KeepLong(pieces[a..j])
  {
    assert pieces[a..j + 1][..j - a] == pieces[a..j];
  }

  /** The positions, among the pieces, of the pieces KeepLong keeps. */
  function Sources(pieces: seq<string>): seq<nat> {
    Positions(pieces, IsLong)
  }

  /** A character no piece holds is in no kept piece. */
  lemma {:induction false} KeepLongKeepsAbsent(pieces: seq<string>, c: char)
    requires forall j :: 0 <= j < |pieces| ==> c !in pieces[j]
    ensures forall k :: 0 <= k < |KeepLong(pieces)| ==> c !in KeepLong(pieces)[k]
    decreases |pieces|
  {
    if pieces != [] {
      KeepLongKeepsAbsent(pieces[..|pieces| - 1], c);
      StripKeepsAbsent(pieces[|pieces| - 1], c);
    }
  }

  /** The k-th kept piece is the stripped piece at the k-th source position. */
  lemma {:induction false} SourcesMatch(pieces: seq<string>)
    ensures |Sources(pieces)| == |KeepLong(pieces)|
    ensures forall k :: 0 <= k < |Sources(pieces)| ==>
      Sources(pieces)[k] < |pieces| && KeepLong(pieces)[k] == Strip(pieces[Sources(pieces)[k]])
    decreases |pieces|
  {
    if pieces != [] {
      var n := |pieces| - 1;
      var init := pieces[..n];
      SourcesMatch(init);
      var idx, r := Sources(pieces), KeepLong(pieces);
      var idx0, r0 := Sources(init), KeepLong(init);
      if IsLong(pieces[n]) {
        assert idx == idx0 + [n] && r == r0 + [Strip(pieces[n])];
      } else {
        assert idx == idx0 && r == r0;
      }
      forall k | 0 <= k < |idx0|
        ensures idx[k] < |pieces| && r[k] == Strip(pieces[idx[k]])
      {
        assert idx[k] == idx0[k] && r[k] == r0[k];
        assert init[idx0[k]] == pieces[idx0[k]];
      }
    }
  }

  /** KeepLong selects exactly the long pieces, strips them, and keeps their
      order: the k-th result is the stripped piece at the k-th source
      position, the positions increase, and a position is a source exactly
      when its piece is long. */
  lemma KeepLongSelects(pieces: seq<string>)
    ensures var r, idx := KeepLong(pieces), Sources(pieces);
      && |idx| == |r|
      && (forall k :: 0 <= k < |idx| ==> idx[k] < |pieces| && r[k] == Strip(pieces[idx[k]]))
      && (forall k, l :: 0 <= k < l < |idx| ==> idx[k] < idx[l])
      && (forall j :: 0 <= j < |pieces| ==> (IsLong(pieces[j]) <==> j in idx))
  {
    SourcesMatch(pieces);
    PositionsIncrease(pieces, IsLong);
    PositionsExact(pieces, IsLong);
  }

  /** The tokens of an OCR text. */
  function Tokenize(text: string): (words: seq<string>)
    ensures forall k :: 0 <= k < |words| ==>
      IsStripped(words[k]) && |words[k]| >= 3 && '.' !in words[k] && '|' !in words[k]
  {
    var pieces := Split(RemoveChar(text, '.'), "|");
    SplitKeepsAbsent(RemoveChar(text, '.'), "|", '.');
    SplitOneChar(RemoveChar(text, '.'), '|');
    KeepLongKeepsAbsent(pieces, '.');
    KeepLongKeepsAbsent(pieces, '|');
    KeepLong(pieces)
  }

  /** The tokens are the long pieces of the period-free text, stripped and in
      their order in the text. */
  lemma TokensInOrder(text: string)
    ensures var pieces := Split(RemoveChar(text, '.'), "|");
      var words, idx := Tokenize(text), Sources(pieces);
      && |idx| == |words|
      && (forall k :: 0 <= k < |idx| ==> idx[k] < |pieces| && words[k] == Strip(pieces[idx[k]]))
      && (forall k, l :: 0 <= k < l < |idx| ==> idx[k] < idx[l])
      && (forall j :: 0 <= j < |pieces| ==> (IsLong(pieces[j]) <==> j in idx))
  {
    KeepLongSelects(Split(RemoveChar(text, '.'), "|"));
  }

  /** Empty text gives no token. */
  lemma EmptyText()
    ensures Tokenize("") == []
  {
    assert Split(RemoveChar("", '.'), "|") == [""];
  }
}
