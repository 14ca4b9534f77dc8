/** Hover-text line wrapping (limitLineWidth): a long string is broken into
    display lines joined by the HTML markup "<br>". */
module TextWrap {

  /** The line-break markup inserted between display lines. */
  const Br: string := "<br>"

  /** Width used when the caller gives none. */
  const DefaultWidth: int := 50

  /** Index of the last ' ' in s, or -1 when s holds no space (str.rfind). */
  function LastSpace(s: string): (r: int)
    ensures -1 <= r < |s|
    ensures r == -1 <==> (forall j :: 0 <= j < |s| ==> s[j] != ' ')
    ensures r >= 0 ==> s[r] == ' ' && forall j :: r < j < |s| ==> s[j] != ' '
  {
    if |s| == 0 then -1
    else if s[|s| - 1] == ' ' then |s| - 1
    else LastSpace(s[..|s| - 1])
  }

  /** limitLineWidth(line, width): while the text is longer than width, break
      at the last space of its first width characters (dropping that space),
      or hard-break after exactly width characters when there is none.
      The recursion is on a strictly shorter suffix only when width >= 1. */
  function Wrap(line: string, width: int): (r: string)
    requires width >= 1
    ensures |line| <= width ==> r == line
    ensures |line| > width ==> |r| > |line|
    decreases |line|
  {
    if |line| > width then
      var k := LastSpace(line[..width]);
      if k != -1 then line[..k] + Br + Wrap(line[k + 1..], width)
      else line[..width] + Br + Wrap(line[width..], width)
    else line
  }

  /** A soft break: when k is the last space among the first width
      characters, Wrap ends its first line just before k and drops the space. */
  lemma WrapSoftBreak(line: string, width: int, k: int)
    requires 1 <= width < |line|
    requires 0 <= k < width && line[k] == ' '
    requires forall j :: k < j < width ==> line[j] != ' '
    ensures Wrap(line, width) == line[..k] + Br + Wrap(line[k + 1..], width)
  {
    var window := line[..width];
    var r := LastSpace(window);
    assert window[k] == ' ';
    assert forall j :: 0 <= j < width ==> window[j] == line[j];
    assert r == k;
  }

  /** A hard break: when none of the first width characters is a space, Wrap
      ends its first line after exactly width characters. */
  lemma WrapHardBreak(line: string, width: int)
    requires 1 <= width < |line|
    requires forall j :: 0 <= j < width ==> line[j] != ' '
    ensures Wrap(line, width) == line[..width] + Br + Wrap(line[width..], width)
  {
    var window := line[..width];
    assert forall j :: 0 <= j < width ==> window[j] == line[j];
  }

  // ---------------------------------------------------------------------
  // Reading the display lines back out of a string

  /** An occurrence of the markup starts at index i of s. */
  predicate BrAt(s: string, i: int)
  {
    0 <= i && i + 4 <= |s| && s[i] == '<' && s[i + 1] == 'b' && s[i + 2] == 'r' && s[i + 3] == '>'
  }

  /** s contains no occurrence of the markup. */
  predicate FreeOfBr(s: string)
  {
    forall i :: 0 <= i < |s| ==> !BrAt(s, i)
  }

  /** Index of the first markup in s at or after from, or -1 when there is
      none (str.find). */
  function FindBr(s: string, from: nat): (r: int)
    requires from <= |s|
    ensures r == -1 || from <= r
    ensures r == -1 ==> forall j :: from <= j < |s| ==> !BrAt(s, j)
    ensures r >= 0 ==> BrAt(s, r) && forall j :: from <= j < r ==> !BrAt(s, j)
    decreases |s| - from
  {
    if from + 4 > |s| then -1
    else if BrAt(s, from) then from
    else FindBr(s, from + 1)
  }

  /** The display lines of s: s cut at every markup, scanning left to right
      (what str.split("<br>") gives). */
  function SplitBr(s: string): (r: seq<string>)
    ensures |r| >= 1
    decreases |s|
  {
    var k := FindBr(s, 0);
    if k == -1 then [s] else [s[..k]] + SplitBr(s[k + 4..])
  }

  /** Splitting at the first markup, found at k. */
  lemma SplitBrAt(s: string, k: nat)
    requires BrAt(s, k)
    requires forall j :: 0 <= j < k ==> !BrAt(s, j)
    ensures SplitBr(s) == [s[..k]] + SplitBr(s[k + 4..])
  {
    assert FindBr(s, 0) == k;
  }

  /** Appending a markup and more text to a string free of the markup: the
      first markup is the appended one, since '<' opens the markup and occurs
      nowhere else in it. */
  lemma SplitBrAppendFree(a: string, b: string)
    requires FreeOfBr(a)
    ensures SplitBr(a + Br + b) == [a] + SplitBr(b)
  {
    var s := a + Br + b;
    forall j | 0 <= j < |a|
      ensures !BrAt(s, j)
    {
      if j + 4 <= |a| {
        assert !BrAt(a, j);
      }
    }
    SplitBrAt(s, |a|);
    assert s[..|a|] == a;
    assert s[|a| + 4..] == b;
  }

  /** Appending leaves the first markup of a, at k, the first one. */
  lemma SplitBrAppendAt(a: string, b: string, k: nat)
    requires BrAt(a, k)
    requires forall j :: 0 <= j < k ==> !BrAt(a, j)
    ensures SplitBr(a + Br + b) == [a[..k]] + SplitBr(a[k + 4..] + Br + b)
  {
    var s := a + Br + b;
    forall j | 0 <= j <= k
      ensures BrAt(s, j) == BrAt(a, j)
    {
    }
    SplitBrAt(s, k);
    assert s[..k] == a[..k];
    assert s[k + 4..] == a[k + 4..] + Br + b;
  }

  /** The markup has no border: a markup that starts inside a and runs into
      the appended markup is impossible, so splitting a + "<br>" + b splits
      a and b separately. */
  lemma {:induction false} SplitBrAppend(a: string, b: string)
    ensures SplitBr(a + Br + b) == SplitBr(a) + SplitBr(b)
    decreases |a|
  {
    var k := FindBr(a, 0);
    if k == -1 {
      SplitBrAppendFree(a, b);
      SplitBrFree(a);
    } else {
      SplitBrAppendAt(a, b, k);
      SplitBrAt(a, k);
      SplitBrAppend(a[k + 4..], b);
    }
  }

  /** SplitBrAppend with the concatenation grouped to the right. */
  lemma SplitBrCons(a: string, b: string)
    ensures SplitBr(a + (Br + b)) == SplitBr(a) + SplitBr(b)
  {
    assert a + (Br + b) == a + Br + b;
    SplitBrAppend(a, b);
  }

  /** A leading markup gives an empty first line. */
  lemma SplitBrLead(b: string)
    ensures SplitBr(Br + b) == [""] + SplitBr(b)
  {
    assert "" + Br + b == Br + b;
    SplitBrAppend("", b);
    SplitBrFree("");
  }

  /** A string free of the markup is a single display line. */
  lemma SplitBrFree(s: string)
    requires FreeOfBr(s)
    ensures SplitBr(s) == [s]
  {
  }

  /** The display lines put back together with the markup between them
      (str.join). */
  function JoinBr(ls: seq<string>): string
    decreases |ls|
  {
    if |ls| == 0 then ""
    else if |ls| == 1 then ls[0]
    else ls[0] + Br + JoinBr(ls[1..])
  }

  /** Joining a first line onto at least one more. */
  lemma JoinBrCons(x: string, ls: seq<string>)
    requires |ls| >= 1
    ensures JoinBr([x] + ls) == x + Br + JoinBr(ls)
  {
    assert ([x] + ls)[1..] == ls;
  }

  /** Splitting loses nothing: joining the display lines of s with the
      markup gives s back. */
  lemma {:induction false} SplitBrJoin(s: string)
    ensures JoinBr(SplitBr(s)) == s
    decreases |s|
  {
    var k := FindBr(s, 0);
    if k != -1 {
      var rest := s[k + 4..];
      SplitBrJoin(rest);
      assert SplitBr(s) == [s[..k]] + SplitBr(rest);
      JoinBrCons(s[..k], SplitBr(rest));
      assert s[k..k + 4] == Br;
      assert s == s[..k] + s[k..k + 4] + rest;
    }
  }

  /** No display line contains the markup. */
  lemma {:induction false} SplitBrPiecesFree(s: string)
    ensures forall i :: 0 <= i < |SplitBr(s)| ==> FreeOfBr(SplitBr(s)[i])
    decreases |s|
  {
    var k := FindBr(s, 0);
    if k != -1 {
      var first := s[..k];
      forall j | 0 <= j < |first|
        ensures !BrAt(first, j)
      {
        if j + 4 <= k {
          assert !BrAt(s, j);
        }
      }
      SplitBrPiecesFree(s[k + 4..]);
      assert SplitBr(s) == [first] + SplitBr(s[k + 4..]);
    }
  }

  /** Joining lines that hold no markup and splitting again gives the same
      lines: SplitBr and JoinBr are inverse on markup-free lines. */
  lemma {:induction false} JoinBrSplit(ls: seq<string>)
    requires |ls| >= 1
    requires forall i :: 0 <= i < |ls| ==> FreeOfBr(ls[i])
    ensures SplitBr(JoinBr(ls)) == ls
    decreases |ls|
  {
    if |ls| == 1 {
      SplitBrFree(ls[0]);
    } else {
      JoinBrSplit(ls[1..]);
      SplitBrAppendFree(ls[0], JoinBr(ls[1..]));
      assert ls == [ls[0]] + ls[1..];
    }
  }

  /** Every slice of a string free of the markup is free of it too. */
  lemma FreeOfBrSlice(s: string, lo: int, hi: int)
    requires FreeOfBr(s)
    requires 0 <= lo <= hi <= |s|
    ensures FreeOfBr(s[lo..hi])
  {
    forall i | 0 <= i < hi - lo
      ensures !BrAt(s[lo..hi], i)
    {
      assert !BrAt(s, lo + i);
    }
  }

  /** Every suffix of a string free of the markup is free of it too. */
  lemma FreeOfBrDrop(s: string, lo: int)
    requires FreeOfBr(s)
    requires 0 <= lo <= |s|
    ensures FreeOfBr(s[lo..])
  {
    forall i | 0 <= i < |s| - lo
      ensures !BrAt(s[lo..], i)
    {
      assert !BrAt(s, lo + i);
    }
  }

  /** A prefix without '<' cannot start or share a markup. */
  lemma FreeOfBrPrefix(p: string, s: string)
    requires forall i :: 0 <= i < |p| ==> p[i] != '<'
    requires FreeOfBr(s)
    ensures FreeOfBr(p + s)
  {
    forall i | 0 <= i < |p + s|
      ensures !BrAt(p + s, i)
    {
      if i >= |p| {
        assert !BrAt(s, i - |p|);
      }
    }
  }

  // ---------------------------------------------------------------------
  // What Wrap promises about its display lines

  /** Where Wrap cuts a long line: it keeps line[..cut] as the first line,
      skips the space at cut on a soft break, and wraps line[next..]. */
  lemma WrapCut(line: string, width: int) returns (soft: bool, cut: nat, next: nat)
    requires 1 <= width < |line|
    ensures soft ==> cut < width && next == cut + 1 && line[cut] == ' '
    ensures !soft ==> cut == next == width && ' ' !in line[..width]
    ensures next <= |line|
    ensures Wrap(line, width) == line[..cut] + Br + Wrap(line[next..], width)
    ensures line == line[..cut] + (if soft then " " else "") + line[next..]
  {
    var window := line[..width];
    var k := LastSpace(window);
    soft := k != -1;
    cut, next := if soft then k else width, if soft then k + 1 else width;
    if soft {
      assert window[k] == line[k];
      assert line == line[..cut] + [line[cut]] + line[next..];
    } else {
      assert line[..width] == window;
      assert line == line[..cut] + line[next..];
    }
  }

  /** The first display line of a long line free of the markup. */
  lemma WrapFirstLine(line: string, width: int) returns (soft: bool, cut: nat, next: nat)
    requires 1 <= width < |line|
    requires FreeOfBr(line)
    ensures soft ==> cut < width && next == cut + 1
    ensures !soft ==> cut == next == width && ' ' !in line[..width]
    ensures next <= |line|
    ensures FreeOfBr(line[next..])
    ensures SplitBr(Wrap(line, width)) == [line[..cut]] + SplitBr(Wrap(line[next..], width))
    ensures line == line[..cut] + (if soft then " " else "") + line[next..]
  {
    soft, cut, next := WrapCut(line, width);
    SplitBrAppend(line[..cut], Wrap(line[next..], width));
    FreeOfBrSlice(line, 0, cut);
    SplitBrFree(line[..cut]);
    FreeOfBrDrop(line, next);
  }

  /** No display line is longer than the string it was cut from. */
  lemma {:induction false} SplitBrShort(s: string)
    ensures forall p :: p in SplitBr(s) ==> |p| <= |s|
    decreases |s|
  {
    var k := FindBr(s, 0);
    if k != -1 {
      SplitBrShort(s[k + 4..]);
      assert SplitBr(s) == [s[..k]] + SplitBr(s[k + 4..]);
    }
  }

  /** Joining pieces of at most w characters with the markup and cutting
      again gives display lines of at most w characters, whatever the pieces
      hold: a piece holding markup only splits into shorter lines. */
  lemma {:induction false} SplitJoinFits(pieces: seq<string>, w: int)
    requires |pieces| >= 1
    requires forall i :: 0 <= i < |pieces| ==> |pieces[i]| <= w
    ensures forall p :: p in SplitBr(JoinBr(pieces)) ==> |p| <= w
    decreases |pieces|
  {
    SplitBrShort(pieces[0]);
    if |pieces| > 1 {
      SplitJoinFits(pieces[1..], w);
      SplitBrAppend(pieces[0], JoinBr(pieces[1..]));
    }
  }

  /** For every input, markup already in it included, every display line of
      the wrapped text is at most width characters long. */
  lemma WrapLinesFit(line: string, width: int)
    requires width >= 1
    ensures forall p :: p in SplitBr(Wrap(line, width)) ==> |p| <= width
  {
    var pieces, spaces := WrapPieces(line, width);
    assert forall i :: 0 <= i < |pieces| ==> |pieces[i]| <= width by {
      forall i | 0 <= i < |pieces|
        ensures |pieces[i]| <= width
      {
        if i < |spaces| {
          assert if spaces[i] then |pieces[i]| < width else |pieces[i]| == width && ' ' !in pieces[i];
        }
      }
    }
    SplitJoinFits(pieces, width);
  }

  /** Puts the display lines back together, a space where spaces[i] holds and
      nothing where it does not. */
  function Rejoin(lines: seq<string>, spaces: seq<bool>): string
    requires |lines| == |spaces| + 1
    decreases |spaces|
  {
    if |spaces| == 0 then lines[0]
    else lines[0] + (if spaces[0] then " " else "") + Rejoin(lines[1..], spaces[1..])
  }

  lemma RejoinCons(line: string, soft: bool, lines: seq<string>, spaces: seq<bool>)
    requires |lines| == |spaces| + 1
    ensures Rejoin([line] + lines, [soft] + spaces) == line + (if soft then " " else "") + Rejoin(lines, spaces)
  {
    assert ([line] + lines)[1..] == lines && ([soft] + spaces)[1..] == spaces;
  }

  /** Each display line but the last ends at a break: a soft break (spaces[i])
      leaves a line shorter than width, a hard break a line of exactly width
      characters with no space in it. */
  predicate BreaksFit(lines: seq<string>, spaces: seq<bool>, width: int)
  {
    && |lines| == |spaces| + 1
    && forall i :: 0 <= i < |spaces| ==>
         if spaces[i] then |lines[i]| < width else |lines[i]| == width && ' ' !in lines[i]
  }

  lemma BreaksFitCons(line: string, soft: bool, lines: seq<string>, spaces: seq<bool>, width: int)
    requires BreaksFit(lines, spaces, width)
    requires if soft then |line| < width else |line| == width && ' ' !in line
    ensures BreaksFit([line] + lines, [soft] + spaces, width)
  {
    var ls, ss := [line] + lines, [soft] + spaces;
    forall i | 1 <= i < |ss|
      ensures ls[i] == lines[i - 1] && ss[i] == spaces[i - 1]
    {
    }
  }

  /** For every input, markup already in it included: the wrapped text is
      pieces joined with the markup, and the pieces rejoined at the breaks
      (a space at a soft break, nothing at a hard one) give the input back.
      Every piece but the last ends at a break that fits, and the last piece
      is at most width long. */
  lemma {:induction false} WrapPieces(line: string, width: int) returns (pieces: seq<string>, spaces: seq<bool>)
    requires width >= 1
    ensures Wrap(line, width) == JoinBr(pieces)
    ensures BreaksFit(pieces, spaces, width)
    ensures Rejoin(pieces, spaces) == line
    ensures |pieces[|pieces| - 1]| <= width
    decreases |line|
  {
    if |line| > width {
      var soft, cut, next := WrapCut(line, width);
      var more, tail := WrapPieces(line[next..], width);
      pieces, spaces := [line[..cut]] + more, [soft] + tail;
      JoinBrCons(line[..cut], more);
      RejoinCons(line[..cut], soft, more, tail);
      BreaksFitCons(line[..cut], soft, more, tail, width);
    } else {
      pieces, spaces := [line], [];
    }
  }

  /** A hard break stated on the two halves of the line. */
  lemma HardBreakSplit(head: string, tail: string, width: int)
    requires 1 <= width == |head| && |tail| >= 1
    requires forall j :: 0 <= j < width ==> head[j] != ' '
    ensures Wrap(head + tail, width) == head + Br + Wrap(tail, width)
  {
    var line := head + tail;
    assert forall j :: 0 <= j < width ==> line[j] == head[j];
    WrapHardBreak(line, width);
    assert line[..width] == head;
    assert line[width..] == tail;
  }

  /** Markup already in a line is not protected: with width 3, the "<br>" of
      "ab<br>cd" is cut through ("ab<<br>br><br>cd"). */
  lemma WrapCutsMarkup()
    ensures Wrap("ab<br>cd", 3) == "ab<" + Br + ("br>" + Br + "cd")
  {
    assert "ab<br>cd" == "ab<" + "br>cd";
    assert "br>cd" == "br>" + "cd";
    HardBreakSplit("br>", "cd", 3);
    HardBreakSplit("ab<", "br>cd", 3);
  }

  /** The display lines of that output: "ab<", "br>" and "cd"; the markup
      the line held is gone. */
  lemma CutMarkupLines()
    ensures SplitBr("ab<" + Br + ("br>" + Br + "cd")) == ["ab<", "br>", "cd"]
  {
    var rest := "br>" + Br + "cd";
    SplitBrAppendFree("ab<", rest);
    SplitBrAppendFree("br>", "cd");
    SplitBrFree("cd");
  }

  /** Wrap only replaces single spaces by the markup (a soft break) or inserts
      the markup after exactly width space-free characters (a hard break);
      every other character keeps its place. The returned flags say which
      break is which. */
  lemma {:induction false} WrapRestores(line: string, width: int) returns (spaces: seq<bool>)
    requires width >= 1
    requires FreeOfBr(line)
    ensures BreaksFit(SplitBr(Wrap(line, width)), spaces, width)
    ensures Rejoin(SplitBr(Wrap(line, width)), spaces) == line
    decreases |line|
  {
    if |line| > width {
      var soft, cut, next := WrapFirstLine(line, width);
      var rest := line[next..];
      var tail := WrapRestores(rest, width);
      spaces := [soft] + tail;
      var lines, more := SplitBr(Wrap(line, width)), SplitBr(Wrap(rest, width));
      RejoinCons(line[..cut], soft, more, tail);
      BreaksFitCons(line[..cut], soft, more, tail, width);
    } else {
      SplitBrFree(line);
      spaces := [];
    }
  }
}
