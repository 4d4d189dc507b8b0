/**
  Backslash escapes of the configuration language: the pairing the scanner relies on,
  a decoder that takes whole pairs, and the quoting that undoes it.
 */
module ConfEscape {
  import opened Bytes

  /** Every backslash is followed by the byte it escapes. */
  predicate Paired(w: Bytes) {
    if w == [] then true
    else if w[0] != BACKSLASH then Paired(w[1..])
    else |w| >= 2 && Paired(w[2..])
  }

  /** Paired, except for a last backslash that still waits for its byte. */
  predicate PairedButOne(w: Bytes) {
    w != [] && w[|w| - 1] == BACKSLASH && Paired(w[..|w| - 1])
  }

  /** What the pair of a backslash and ch stands for. */
  function Meaning(ch: byte): Bytes {
    if ch == DQUOTE || ch == SQUOTE || ch == BACKSLASH then [ch]
    else if ch == LOWER_T then [TAB]
    else if ch == LOWER_R then [CR]
    else if ch == LOWER_N then [LF]
    else [BACKSLASH, ch]
  }

  /** The decoded word, taking one plain byte or one pair at a time. */
  function Unescape(w: Bytes): (r: Bytes)
    ensures |r| <= |w|
  {
    if w == [] then []
    else if w[0] != BACKSLASH then [w[0]] + Unescape(w[1..])
    else if |w| == 1 then w
    else Meaning(w[1]) + Unescape(w[2..])
  }

  lemma {:induction false} PairedSnoc(w: Bytes, ch: byte)
    requires Paired(w)
    ensures if ch == BACKSLASH then PairedButOne(w + [ch]) else Paired(w + [ch])
    decreases |w|
  {
    if ch == BACKSLASH {
      assert (w + [ch])[..|w|] == w;
    } else if w != [] {
      var k := if w[0] == BACKSLASH then 2 else 1;
      assert (w + [ch])[k..] == w[k..] + [ch];
      PairedSnoc(w[k..], ch);
    }
  }

  lemma {:induction false} PairedThenPair(w: Bytes, ch: byte)
    requires Paired(w)
    ensures Paired(w + [BACKSLASH, ch])
    decreases |w|
  {
    if w == [] {
      assert (w + [BACKSLASH, ch])[2..] == [];
    } else {
      var k := if w[0] == BACKSLASH then 2 else 1;
      assert (w + [BACKSLASH, ch])[k..] == w[k..] + [BACKSLASH, ch];
      PairedThenPair(w[k..], ch);
    }
  }

  lemma PairedButOneThen(w: Bytes, ch: byte)
    requires PairedButOne(w)
    ensures Paired(w + [ch])
  {
    PairedThenPair(w[..|w| - 1], ch);
    assert w[..|w| - 1] + [BACKSLASH, ch] == w + [ch];
  }

  // ---------------------------------------------------------------- what escaped text stands for

  /** Decoding goes piece by piece: what stands behind a text with all backslashes paired is decoded on its own. */
  lemma {:induction false} UnescapeAppend(u: Bytes, v: Bytes)
    requires Paired(u)
    ensures Unescape(u + v) == Unescape(u) + Unescape(v) && Paired(u + v) == Paired(v)
    decreases |u|
  {
    if u == [] {
      assert u + v == v;
    } else {
      var k := if u[0] == BACKSLASH then 2 else 1;
      assert (u + v)[k..] == u[k..] + v;
      UnescapeAppend(u[k..], v);
    }
  }

  /**
    The pieces, as numbers: a byte stands for itself; behind a backslash 110 (n) is a line feed, 114
    (r) a carriage return and 116 (t) a tab, the two quotes and the backslash stand for themselves,
    and any other byte leaves the backslash in front of it.
   */
  lemma PieceMeans(ch: byte)
    ensures ch != 92 ==> Paired([ch]) && Unescape([ch]) == [ch]
    ensures Paired([92, ch])
    ensures Unescape([92, 110]) == [10] && Unescape([92, 114]) == [13] && Unescape([92, 116]) == [9]
    ensures Unescape([92, 34]) == [34] && Unescape([92, 39]) == [39] && Unescape([92, 92]) == [92]
    ensures ch !in [110, 114, 116, 34, 39, 92] ==> Unescape([92, ch]) == [92, ch]
  {
    assert [ch][1..] == [];
    OnePair(ch);
    OnePair(110);
    OnePair(114);
    OnePair(116);
    OnePair(34);
    OnePair(39);
    OnePair(92);
  }

  lemma OnePair(ch: byte)
    ensures Paired([BACKSLASH, ch]) && Unescape([BACKSLASH, ch]) == Meaning(ch)
  {
    assert [BACKSLASH, ch][2..] == [];
  }

  // ---------------------------------------------------------------- quoting

  /** A byte as it is written between quotes: every byte that has a pair of its own by that pair. */
  function EscapeByte(ch: byte): Bytes {
    if ch == DQUOTE || ch == SQUOTE || ch == BACKSLASH then [BACKSLASH, ch]
    else if ch == LF then [BACKSLASH, LOWER_N]
    else if ch == CR then [BACKSLASH, LOWER_R]
    else if ch == TAB then [BACKSLASH, LOWER_T]
    else [ch]
  }

  /** The bytes of w as they are written between double quotes. */
  function Escape(w: Bytes): Bytes {
    if w == [] then [] else EscapeByte(w[0]) + Escape(w[1..])
  }

  lemma EscapedByte(ch: byte)
    ensures Paired(EscapeByte(ch)) && Unescape(EscapeByte(ch)) == [ch]
  {
    if |EscapeByte(ch)| == 2 { OnePair(EscapeByte(ch)[1]); } else { assert [ch][1..] == []; }
  }

  lemma {:induction false} UnescapeEscape(w: Bytes)
    ensures Paired(Escape(w))
    ensures Unescape(Escape(w)) == w
    decreases |w|
  {
    if w != [] {
      UnescapeEscape(w[1..]);
      EscapedByte(w[0]);
      UnescapeAppend(EscapeByte(w[0]), Escape(w[1..]));
    }
  }

  lemma {:induction false} UnescapePlain(w: Bytes)
    requires BACKSLASH !in w
    ensures Paired(w) && Unescape(w) == w
    decreases |w|
  {
    if w != [] {
      UnescapePlain(w[1..]);
    }
  }
}
