/**
  A printer for directives. What it prints is one of the written forms, so the scanner undoes it.
 */
module ConfPrint {
  import opened Bytes
  import opened ConfEscape
  import opened ConfScan
  import opened ConfSpelling

  /** A byte that neither ends an unquoted word nor starts an escape. */
  predicate Plain(ch: byte) {
    !IsSpace(ch) && ch != SEMI && ch != LBRACE && ch != BACKSLASH
  }

  /** A word that can be written without quotes. */
  predicate BareSafe(w: Bytes) {
    && w != []
    && (forall b :: b in w ==> Plain(b))
    && w[0] != RBRACE && w[0] != HASH && w[0] != DQUOTE && w[0] != SQUOTE
  }

  function PrintWord(w: Bytes): (r: Bytes)
    ensures r != []
  {
    if BareSafe(w) then w else [DQUOTE] + Escape(w) + [DQUOTE]
  }

  /** Words separated by a space, then ";" or " {". The last space keeps "$" and "{" apart. */
  function PrintHead(args: seq<Bytes>, block: bool): (r: Bytes)
    requires args != []
    ensures r != []
  {
    if |args| > 1 then PrintWord(args[0]) + [SPACE] + PrintHead(args[1..], block)
    else PrintWord(args[0]) + if block then [SPACE, LBRACE] else [SEMI]
  }

  /** How many bytes of the word are held when the scanner reaches the byte behind it. */
  function Span(w: Bytes): nat {
    if BareSafe(w) then |w| else |Escape(w)| + 1
  }

  /** The word stays below the buffer limit, with the space behind it if one is printed. */
  predicate Fits(src: Source, w: Bytes, spaced: bool) {
    Below(src, Span(w) + if spaced then 1 else 0)
  }

  /** Only a last word with ";" right behind it is printed without a space. */
  predicate AllFit(src: Source, args: seq<Bytes>, block: bool) {
    forall i :: 0 <= i < |args| ==> Fits(src, args[i], block || i < |args| - 1)
  }

  // ---------------------------------------------------------------- printed words as written forms

  /** The printed word as a way to write it. */
  function AsSpelling(w: Bytes): Spelling {
    if BareSafe(w) then Plainly(w) else Quoted(DQUOTE, Escape(w))
  }

  /** The printed directive as words and gaps. */
  function AsItems(args: seq<Bytes>, block: bool): seq<Item> {
    if args == [] then []
    else [Item(AsSpelling(args[0]), if |args| > 1 || block then [SPACE] else [])] + AsItems(args[1..], block)
  }

  lemma {:induction false} PlainRest(w: Bytes, variable: bool)
    requires forall b :: b in w ==> Plain(b)
    ensures BareRest(w, variable) && LineFeeds(w) == 0
    decreases |w|
  {
    if w != [] {
      assert w[0] in w;
      PlainRest(w[1..], w[0] == DOLLAR);
    }
  }

  lemma EscapedFirst(ch: byte, w: Bytes)
    requires Quotable(w, DQUOTE) && LineFeeds(w) == 0
    ensures Quotable(EscapeByte(ch) + w, DQUOTE) && LineFeeds(EscapeByte(ch) + w) == 0
  {
    var e := EscapeByte(ch);
    assert (e + w)[|e|..] == w;
    if |e| == 2 {
      assert (e + w)[1..][1..] == w;
    }
  }

  lemma {:induction false} EscapedIsQuotable(w: Bytes)
    ensures Quotable(Escape(w), DQUOTE) && LineFeeds(Escape(w)) == 0
    decreases |w|
  {
    hide Quotable, LineFeeds, EscapeByte;
    if w == [] {
      NothingToQuote();
    } else {
      EscapedIsQuotable(w[1..]);
      EscapedFirst(w[0], Escape(w[1..]));
    }
  }

  lemma NothingToQuote()
    ensures Quotable([], DQUOTE) && LineFeeds([]) == 0
  {
  }

  lemma {:induction false} LineFeedsAppend(u: Bytes, v: Bytes)
    ensures LineFeeds(u + v) == LineFeeds(u) + LineFeeds(v)
    decreases |u|
  {
    if u == [] {
      assert u + v == v;
    } else {
      assert (u + v)[1..] == u[1..] + v;
      LineFeedsAppend(u[1..], v);
    }
  }

  lemma SpellingIsFine(w: Bytes)
    ensures var word := AsSpelling(w);
            && word.Fine() && word.Text() == PrintWord(w) && word.Length() == Span(w) && Unescape(word.w) == w
    ensures LineFeeds(PrintWord(w)) == 0
  {
    if BareSafe(w) {
      assert w[0] in w;
      PlainRest(w, false);
      PlainRest(w[1..], false);
      UnescapePlain(w);
    } else {
      EscapedIsQuotable(w);
      UnescapeEscape(w);
      LineFeedsAppend([DQUOTE], Escape(w));
      LineFeedsAppend([DQUOTE] + Escape(w), [DQUOTE]);
      assert LineFeeds([DQUOTE]) == 0 by { assert [DQUOTE][1..] == []; }
    }
  }

  lemma SpaceGap(n: nat)
    ensures Gap([SPACE]) && Gap([]) && GapPeak([SPACE], n, false) == n + 1 && GapPeak([], n, false) == n
    ensures LineFeeds([SPACE]) == 0
  {
    assert [SPACE][1..] == [];
  }

  lemma {:induction false} PrintedText(args: seq<Bytes>, block: bool)
    requires args != []
    ensures Spelled(AsItems(args, block)) + [Terminator(block)] == PrintHead(args, block)
    decreases |args|
  {
    hide Spelling.Text, PrintWord, AsSpelling;
    var items, w := AsItems(args, block), args[0];
    SpellingIsFine(w);
    var u, v := PrintWord(w) + items[0].gap, Spelled(items[1..]);
    assert items[1..] == AsItems(args[1..], block);
    if |args| > 1 {
      PrintedText(args[1..], block);
      assert u + v + [Terminator(block)] == u + (v + [Terminator(block)]);
    } else {
      assert u + [] + [Terminator(block)] == PrintWord(w) + (items[0].gap + [Terminator(block)]);
    }
  }

  lemma {:induction false} PrintedLines(args: seq<Bytes>, block: bool)
    ensures LineFeeds(Spelled(AsItems(args, block))) == 0
    decreases |args|
  {
    hide Spelling.Text, PrintWord, AsSpelling, LineFeeds;
    if args == [] {
      NoLineFeeds();
    } else {
      var items, w := AsItems(args, block), args[0];
      SpellingIsFine(w);
      SpaceGap(0);
      NoLineFeeds();
      assert items[1..] == AsItems(args[1..], block);
      PrintedLines(args[1..], block);
      LineFeedsAppend(PrintWord(w), items[0].gap);
      LineFeedsAppend(PrintWord(w) + items[0].gap, Spelled(items[1..]));
    }
  }

  lemma OneMoreFine(item: Item, items: seq<Item>)
    requires item.word.Fine() && Gap(item.gap) && AllFine(items)
    requires items != [] ==> Joins(item, items[0].word)
    ensures AllFine([item] + items)
  {
    hide Spelling.Fine, Gap, Joins;
    var all := [item] + items;
    forall i | 0 < i < |all| ensures Joins(all[i - 1], all[i].word) {
      if i > 1 {
        assert Joins(items[i - 2], items[i - 1].word);
      }
    }
  }

  lemma {:induction false} PrintedMeans(args: seq<Bytes>, block: bool)
    ensures Meant(AsItems(args, block)) == args
    decreases |args|
  {
    hide Unescape, AsSpelling;
    if args != [] {
      SpellingIsFine(args[0]);
      PrintedMeans(args[1..], block);
      assert AsItems(args, block)[1..] == AsItems(args[1..], block);
      assert [args[0]] + args[1..] == args;
    }
  }

  lemma {:induction false} PrintedIsFine(args: seq<Bytes>, block: bool)
    requires args != []
    ensures var items := AsItems(args, block);
            && items != [] && AllFine(items) && Ends(items[|items| - 1], block)
    decreases |args|
  {
    hide Spelling.Fine, Unescape, Gap, PrintWord, AsSpelling, TakesBrace, Joins, AllFine;
    var item, rest := AsItems(args, block)[0], AsItems(args[1..], block);
    SpellingIsFine(args[0]);
    SpaceGap(0);
    if |args| == 1 {
      NothingIsFine();
    } else {
      PrintedIsFine(args[1..], block);
      SpacesJoin(item, rest[0].word);
    }
    OneMoreFine(item, rest);
  }

  lemma NothingIsFine()
    ensures AllFine([])
  {
  }

  lemma SpacesJoin(item: Item, next: Spelling)
    requires item.gap != []
    ensures Joins(item, next)
  {
  }

  /** The printed directive is a written form of its words. */
  lemma PrintedIsWritten(args: seq<Bytes>, block: bool)
    requires args != []
    ensures var items := AsItems(args, block);
            && items != [] && AllFine(items) && Ends(items[|items| - 1], block) && Meant(items) == args
            && Spelled(items) + [Terminator(block)] == PrintHead(args, block)
            && LineFeeds(Spelled(items)) == 0
  {
    hide AllFine, Ends, Meant, Spelled, PrintHead;
    PrintedText(args, block);
    PrintedLines(args, block);
    PrintedMeans(args, block);
    PrintedIsFine(args, block);
  }

  lemma NoLineFeeds()
    ensures LineFeeds([]) == 0
  {
  }

  /** It stays below the buffer limit exactly when each of its words does. */
  lemma {:induction false} PrintedFits(src: Source, args: seq<Bytes>, block: bool)
    requires Below(src, 0)
    ensures Below(src, ItemsPeak(AsItems(args, block))) <==> AllFit(src, args, block)
    decreases |args|
  {
    hide AsSpelling, Span, GapPeak;
    if args != [] {
      var n := AsSpelling(args[0]).Length();
      SpellingIsFine(args[0]);
      SpaceGap(n);
      PrintedFits(src, args[1..], block);
      var spaced := |args| > 1 || block;
      assert AllFit(src, args, block) <==> Fits(src, args[0], spaced) && AllFit(src, args[1..], block) by {
        AllFitTail(src, args, block);
      }
    }
  }

  lemma AllFitTail(src: Source, args: seq<Bytes>, block: bool)
    requires args != []
    ensures AllFit(src, args, block) <==> Fits(src, args[0], |args| > 1 || block) && AllFit(src, args[1..], block)
  {
    hide Fits;
    var ws := args[1..];
    assert forall i :: 0 <= i < |ws| ==> ws[i] == args[i + 1];
    if Fits(src, args[0], |args| > 1 || block) && AllFit(src, ws, block) {
      forall i | 0 <= i < |args| ensures Fits(src, args[i], block || i < |args| - 1) {
        if i > 0 {
          assert Fits(src, ws[i - 1], block || i - 1 < |ws| - 1);
        }
      }
    }
    if AllFit(src, args, block) {
      assert Fits(src, args[0], block || 0 < |args| - 1);
      forall i | 0 <= i < |ws| ensures Fits(src, ws[i], block || i < |ws| - 1) {
        assert Fits(src, args[i + 1], block || i + 1 < |args| - 1);
      }
    }
  }

  /**
    Print then scan: behind any blanks, one call of the scanner gives back exactly the printed
    words, whatever bytes they hold, and stops right behind the terminator. It does so exactly when
    every word, and the blanks, stay below the buffer size; in a parameter there is no buffer, and
    it always does.
   */
  lemma TokenRoundTrip(src: Source, line: nat, lead: Bytes, args: seq<Bytes>, block: bool, tail: Bytes)
    requires args != [] && Below(src, 0) && Blanks(lead, false)
    ensures var t := NextToken(src, line, lead + PrintHead(args, block) + tail);
            if AllFit(src, args, block) && Below(src, GapPeak(lead, 0, false))
            then t == Token(if block then BlockStart else Ok, args, line + LineFeeds(lead), tail)
            else Overlong(t.code)
  {
    hide ScanToken, PrintHead, GapPeak, LineFeeds, AllFine, Ends, AllFit;
    var items := AsItems(args, block);
    PrintedIsWritten(args, block);
    PrintedFits(src, args, block);
    SpelledDirective(src, line, lead, items, block, tail);
    LineFeedsAppend(lead, Spelled(items));
    assert lead + PrintHead(args, block) + tail == lead + Spelled(items) + ([Terminator(block)] + tail);
  }
}
