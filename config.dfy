/**
 * The data list's property strings (oDataList::setProperty / getProperty): how a
 * property value is parsed into the column and grouping tables, how a table is
 * written back as text, and the completion checkColumns applies before drawing.
 * The class in module DataListComponent runs these parsers as loops and is proved
 * against the functions here.
 */
module DLConfig {
  import opened Geometry
  import opened DLGrouping

  /** The delimiter the properties use between calculations (DL_DELIMIT_CHAR). */
  const Delimiter: char := '\n'

  /** A tab is still accepted as a delimiter for backwards compatibility. */
  predicate IsSeparator(c: char) { c == '\t' || c == Delimiter }

  /** A text without delimiters. */
  predicate NoSeparator(s: string)
  {
    forall j :: 0 <= j < |s| ==> !IsSeparator(s[j])
  }

  /** A text without carriage returns. */
  predicate NoReturn(s: string)
  {
    forall j :: 0 <= j < |s| ==> s[j] != '\r'
  }

  /** A calculation that survives a write and a read: no delimiter and no carriage return. */
  predicate Plain(s: string)
  {
    NoSeparator(s) && NoReturn(s)
  }

  /** n copies of the table xs, completed with pad where xs is too short and cut where it is too long. */
  function Padded<T>(xs: seq<T>, n: nat, pad: T): (r: seq<T>)
    ensures |r| == n
    ensures forall i :: 0 <= i < n && i < |xs| ==> r[i] == xs[i]
    ensures forall i :: |xs| <= i < n ==> r[i] == pad
  {
    seq(n, i requires 0 <= i < n => if i < |xs| then xs[i] else pad)
  }

  // ---------------------------------------------------------------------------
  // Newlines: replace("\r\n", "\n") followed by replace("\r", "\n")
  // ---------------------------------------------------------------------------

  /** Every "\r\n" pair, taken from the left, becomes a single "\n". */
  function CollapseCRLF(s: string): (r: string)
    ensures |r| <= |s|
    ensures NoReturn(s) ==> r == s
    decreases |s|
  {
    if |s| >= 2 && s[0] == '\r' && s[1] == '\n' then "\n" + CollapseCRLF(s[2..])
    else if s == [] then []
    else [s[0]] + CollapseCRLF(s[1..])
  }

  /** Both replacements: the text with Windows and classic Mac line ends turned into "\n". */
  function Normalized(s: string): (r: string)
    ensures NoReturn(r)
    ensures NoReturn(s) ==> r == s
  {
    var c := CollapseCRLF(s);
    seq(|c|, i requires 0 <= i < |c| => if c[i] == '\r' then '\n' else c[i])
  }

  // ---------------------------------------------------------------------------
  // Cutting a text into calculations at every delimiter
  // ---------------------------------------------------------------------------

  /** The state of the parsing loop: the calculations pushed so far and the one being read. */
  datatype Cut = Cut(done: seq<string>, cur: string)

  /** The parsing loop after reading s: each delimiter pushes the current calculation. */
  function Cuts(s: string): Cut
  {
    if s == [] then Cut([], "")
    else
      var c := Cuts(s[..|s| - 1]);
      if IsSeparator(s[|s| - 1]) then Cut(c.done + [c.cur], "") else Cut(c.done, c.cur + [s[|s| - 1]])
  }

  /** All calculations of s, the last one included even when it is empty. */
  function Segments(s: string): (r: seq<string>)
    ensures |r| >= 1
  {
    Cuts(s).done + [Cuts(s).cur]
  }

  /** The getters' text: the entries of xs with sep between consecutive ones. */
  function Joined(xs: seq<string>, sep: char): string
  {
    if |xs| == 0 then ""
    else if |xs| == 1 then xs[0]
    else Joined(xs[..|xs| - 1], sep) + [sep] + xs[|xs| - 1]
  }

  /** The getters' loops: entry i is appended after a separator, except for the first. */
  lemma JoinedPrefixStep(xs: seq<string>, i: nat, sep: char)
    requires i < |xs|
    ensures Joined(xs[..i + 1], sep) == (if i == 0 then "" else Joined(xs[..i], sep) + [sep]) + xs[i]
  {
    assert xs[..i + 1][..i] == xs[..i];
  }

  /** One more character read by the parsing loop. */
  lemma CutsStep(s: string, c: char)
    ensures Cuts(s + [c]) == if IsSeparator(c) then Cut(Cuts(s).done + [Cuts(s).cur], "") else Cut(Cuts(s).done, Cuts(s).cur + [c])
  {
    assert (s + [c])[..|s|] == s;
  }

  /** Reading a text that ends with a piece without delimiters extends the current calculation by it. */
  lemma {:induction false} CutsPlain(p: string, w: string)
    requires NoSeparator(w)
    ensures Cuts(p + w) == Cut(Cuts(p).done, Cuts(p).cur + w)
    decreases |w|
  {
    if w == [] {
      assert p + w == p;
    } else {
      var w0, ch := w[..|w| - 1], w[|w| - 1];
      var c := Cuts(p);
      assert Cuts(p + w0) == Cut(c.done, c.cur + w0) by {
        assert NoSeparator(w0) by {
          forall j | 0 <= j < |w0| ensures !IsSeparator(w0[j]) { assert w0[j] == w[j]; }
        }
        CutsPlain(p, w0);
      }
      assert Cuts(p + w) == Cut(c.done, c.cur + w0 + [ch]) by {
        assert !IsSeparator(ch);
        assert p + w == (p + w0) + [ch];
        CutsStep(p + w0, ch);
      }
      assert c.cur + w0 + [ch] == c.cur + w;
    }
  }

  /** Cutting a joined sequence of calculations gives them back. */
  lemma {:induction false} CutsJoined(xs: seq<string>)
    requires |xs| >= 1
    requires forall k :: 0 <= k < |xs| ==> NoSeparator(xs[k])
    ensures Cuts(Joined(xs, Delimiter)) == Cut(xs[..|xs| - 1], xs[|xs| - 1])
  {
    if |xs| == 1 {
      CutsPlain([], xs[0]);
      assert [] + xs[0] == xs[0];
    } else {
      var ys := xs[..|xs| - 1];
      CutsJoined(ys);
      var j := Joined(ys, Delimiter);
      var p := j + [Delimiter];
      CutsStep(j, Delimiter);
      assert ys[..|ys| - 1] + [ys[|ys| - 1]] == ys;
      assert Cuts(p) == Cut(ys, "");
      CutsPlain(p, xs[|xs| - 1]);
      assert Joined(xs, Delimiter) == p + xs[|xs| - 1];
    }
  }

  /** Writing calculations without delimiters and reading them back gives the same calculations. */
  lemma {:induction false} SegmentsOfJoined(xs: seq<string>)
    requires |xs| >= 1
    requires forall k :: 0 <= k < |xs| ==> NoSeparator(xs[k])
    ensures Segments(Joined(xs, Delimiter)) == xs
  {
    CutsJoined(xs);
    assert xs[..|xs| - 1] + [xs[|xs| - 1]] == xs;
  }

  /** Joining texts without carriage returns by a separator that is not one gives a text without them. */
  lemma {:induction false} JoinedNoReturn(xs: seq<string>, sep: char)
    requires forall k :: 0 <= k < |xs| ==> NoReturn(xs[k])
    requires sep != '\r'
    ensures NoReturn(Joined(xs, sep))
  {
    if |xs| > 1 {
      JoinedNoReturn(xs[..|xs| - 1], sep);
    }
  }

  /** A table of plain calculations survives the getter's join and the setter's normalisation and cut. */
  lemma SegmentsRoundTrip(xs: seq<string>)
    requires |xs| >= 1
    requires forall k :: 0 <= k < |xs| ==> Plain(xs[k])
    ensures Segments(Normalized(Joined(xs, Delimiter))) == xs
  {
    JoinedNoReturn(xs, Delimiter);
    SegmentsOfJoined(xs);
  }

  /** Appending a character to the last entry appends it to the joined text. */
  lemma JoinedExtend(xs: seq<string>, sep: char, x: string, c: char)
    ensures Joined(xs + [x + [c]], sep) == Joined(xs + [x], sep) + [c]
  {
    if |xs| != 0 {
      assert (xs + [x + [c]])[..|xs|] == xs;
      assert (xs + [x])[..|xs|] == xs;
    }
  }

  /** Reading a text whose only delimiters are Delimiter and joining the result gives the text back. */
  lemma {:induction false} JoinedOfSegments(s: string)
    requires forall j :: 0 <= j < |s| ==> s[j] != '\t'
    ensures Joined(Segments(s), Delimiter) == s
  {
    if s != [] {
      var p := s[..|s| - 1];
      var c := Cuts(p);
      JoinedOfSegments(p);
      assert s == p + [s[|s| - 1]];
      if IsSeparator(s[|s| - 1]) {
        var xs := c.done + [c.cur] + [""];
        assert xs[..|xs| - 1] == c.done + [c.cur];
      } else {
        JoinedExtend(c.done, Delimiter, c.cur, s[|s| - 1]);
      }
    }
  }

  // ---------------------------------------------------------------------------
  // $columncalcs
  // ---------------------------------------------------------------------------

  /** setProperty(columncalcs): one calculation per segment, the last one included. */
  function ColumnCalcs(s: string): (r: seq<string>)
    ensures |r| >= 1
  {
    Segments(Normalized(s))
  }

  /** getProperty(columncalcs): the first count calculations, a missing one written as empty. */
  function ColumnCalcsText(calcs: seq<string>, count: nat): string
  {
    Joined(Padded(calcs, count, ""), Delimiter)
  }

  /** Reading back what the getter wrote restores the first count calculations, completed with empty ones. */
  lemma ColumnCalcsRoundTrip(calcs: seq<string>, count: nat)
    requires count >= 1
    requires forall i :: 0 <= i < count && i < |calcs| ==> Plain(calcs[i])
    ensures ColumnCalcs(ColumnCalcsText(calcs, count)) == Padded(calcs, count, "")
  {
    var xs := Padded(calcs, count, "");
    assert forall k :: 0 <= k < |xs| ==> Plain(xs[k]);
    SegmentsRoundTrip(xs);
  }

  // ---------------------------------------------------------------------------
  // $groupcalcs and $parentcalcs
  // ---------------------------------------------------------------------------

  /** The calculations a groupcalcs value holds: every segment but an empty last one. */
  function GroupSegments(s: string): (r: seq<string>)
  {
    var segs := Segments(Normalized(s));
    if segs[|segs| - 1] == "" then segs[..|segs| - 1] else segs
  }

  /** setProperty(groupcalcs): one grouping level per calculation, none with a parent calculation. */
  function GroupCalcs(s: string): (r: seq<Grouping>)
    ensures |r| == |GroupSegments(s)|
    ensures forall i :: 0 <= i < |r| ==> r[i] == Grouping(GroupSegments(s)[i], None)
  {
    Levels(GroupSegments(s))
  }

  /** One grouping level without a parent calculation per calculation. */
  function Levels(calcs: seq<string>): (r: seq<Grouping>)
    ensures |r| == |calcs|
    ensures forall i :: 0 <= i < |r| ==> r[i] == Grouping(calcs[i], None)
  {
    seq(|calcs|, i requires 0 <= i < |calcs| => Grouping(calcs[i], None))
  }

  /** The calculations kept from a text whose parse ended in `c`: those pushed, and the last one unless it is empty. */
  lemma GroupSegmentsOfCut(s: string)
    ensures var c := Cuts(Normalized(s));
      GroupSegments(s) == c.done + (if c.cur == "" then [] else [c.cur])
  {
    var c := Cuts(Normalized(s));
    assert Segments(Normalized(s))[..|c.done|] == c.done;
  }

  /** The level calculations of a grouping table. */
  function GroupTexts(gs: seq<Grouping>): (r: seq<string>)
    ensures |r| == |gs|
    ensures forall i :: 0 <= i < |gs| ==> r[i] == gs[i].groupCalc
  {
    seq(|gs|, i requires 0 <= i < |gs| => gs[i].groupCalc)
  }

  /** getProperty(groupcalcs): the level calculations joined by the delimiter. */
  function GroupCalcsText(gs: seq<Grouping>): string
  {
    Joined(GroupTexts(gs), Delimiter)
  }

  /** A level table survives a write and a read when its last calculation is not empty (parents are dropped). */
  lemma {:induction false} GroupCalcsRoundTrip(gs: seq<Grouping>)
    requires forall i :: 0 <= i < |gs| ==> Plain(gs[i].groupCalc)
    requires |gs| > 0 ==> gs[|gs| - 1].groupCalc != ""
    ensures GroupCalcs(GroupCalcsText(gs)) == seq(|gs|, i requires 0 <= i < |gs| => Grouping(gs[i].groupCalc, None))
  {
    var xs := GroupTexts(gs);
    GroupSegmentsOfText(gs);
    var r := Levels(xs);
    assert GroupCalcs(GroupCalcsText(gs)) == r;
    var want := seq(|gs|, i requires 0 <= i < |gs| => Grouping(gs[i].groupCalc, None));
    forall i | 0 <= i < |gs|
      ensures r[i] == want[i]
    {
    }
    assert r == want;
  }

  /** The segments the setter keeps from the getter's text are the level calculations. */
  lemma GroupSegmentsOfText(gs: seq<Grouping>)
    requires forall i :: 0 <= i < |gs| ==> Plain(gs[i].groupCalc)
    requires |gs| > 0 ==> gs[|gs| - 1].groupCalc != ""
    ensures GroupSegments(GroupCalcsText(gs)) == GroupTexts(gs)
  {
    var xs := GroupTexts(gs);
    if |gs| == 0 {
      assert GroupCalcsText(gs) == [];
      assert Normalized([]) == [];
      assert Segments([]) == [[]];
    } else {
      SegmentsRoundTrip(xs);
    }
  }

  /** A group level's parent calculation as the getter writes it. */
  function ParentText(p: Option<string>): string
  {
    match p
    case None => ""
    case Some(c) => c
  }

  /**
   * setProperty(parentCalcs): every level loses its parent calculation, then segment g
   * becomes the parent calculation of level g when it is not empty and level g exists.
   */
  function WithParents(gs: seq<Grouping>, s: string): (r: seq<Grouping>)
    ensures |r| == |gs|
    ensures forall i :: 0 <= i < |r| ==> r[i].groupCalc == gs[i].groupCalc
  {
    ParentsFrom(gs, Segments(Normalized(s)))
  }

  /** The levels of gs with calculation k of `calcs`, when there is one and it is not empty, as parent calculation. */
  function ParentsFrom(gs: seq<Grouping>, calcs: seq<string>): (r: seq<Grouping>)
    ensures |r| == |gs|
  {
    seq(|gs|, i requires 0 <= i < |gs| =>
      Grouping(gs[i].groupCalc, if i < |calcs| && calcs[i] != "" then Some(calcs[i]) else None))
  }

  /** One more calculation read by the setter's loop sets at most the parent of the next level. */
  lemma ParentsFromStep(gs: seq<Grouping>, calcs: seq<string>, c: string)
    ensures ParentsFrom(gs, calcs + [c]) ==
      if c != "" && |calcs| < |gs| then ParentsFrom(gs, calcs)[|calcs| := Grouping(gs[|calcs|].groupCalc, Some(c))]
      else ParentsFrom(gs, calcs)
  {
  }

  /** getProperty(parentcalcs): the parent calculations joined by the delimiter, a missing one written as empty. */
  function ParentCalcsText(gs: seq<Grouping>): string
  {
    Joined(ParentTexts(gs), Delimiter)
  }

  /** The parent calculations of a grouping table as the getter writes them. */
  function ParentTexts(gs: seq<Grouping>): (r: seq<string>)
    ensures |r| == |gs|
    ensures forall i :: 0 <= i < |gs| ==> r[i] == ParentText(gs[i].parentCalc)
  {
    seq(|gs|, i requires 0 <= i < |gs| => ParentText(gs[i].parentCalc))
  }

  /** The parent calculations survive a write and a read unless one of them is empty. */
  lemma {:induction false} ParentCalcsRoundTrip(gs: seq<Grouping>)
    requires forall i :: 0 <= i < |gs| ==> Plain(ParentText(gs[i].parentCalc))
    requires forall i :: 0 <= i < |gs| ==> gs[i].parentCalc != Some("")
    ensures WithParents(gs, ParentCalcsText(gs)) == gs
  {
    if |gs| != 0 {
      var xs := ParentTexts(gs);
      var t := Joined(xs, Delimiter);
      assert Segments(Normalized(t)) == xs by {
        SegmentsRoundTrip(xs);
      }
      var r := WithParents(gs, t);
      forall i | 0 <= i < |gs| ensures r[i] == gs[i]
      {
        assert xs[i] == ParentText(gs[i].parentCalc);
      }
    }
  }

  // ---------------------------------------------------------------------------
  // $columnwidths
  // ---------------------------------------------------------------------------

  predicate IsDigit(c: char) { '0' <= c <= '9' }

  function DigitValue(c: char): (d: int)
    requires IsDigit(c)
    ensures 0 <= d <= 9
  {
    c as int - '0' as int
  }

  function DigitChar(d: int): (c: char)
    requires 0 <= d <= 9
    ensures IsDigit(c) && DigitValue(c) == d
  {
    ('0' as int + d) as char
  }

  /** The state of the width parser: the widths pushed so far and the width being read. */
  datatype WidthCut = WidthCut(done: seq<int>, width: int)

  /** The width parser after reading s: a comma pushes, a digit shifts in, anything else is skipped. */
  function WidthCuts(s: string): (c: WidthCut)
    ensures c.width >= 0
    ensures forall k :: 0 <= k < |c.done| ==> c.done[k] >= 0
  {
    if s == [] then WidthCut([], 0)
    else
      var c := WidthCuts(s[..|s| - 1]);
      var d := s[|s| - 1];
      if d == ',' then WidthCut(c.done + [c.width], 0)
      else if IsDigit(d) then WidthCut(c.done, 10 * c.width + DigitValue(d))
      else c
  }

  /** setProperty(columnwidths): one width per comma-separated piece, never negative. */
  function Widths(s: string): (r: seq<int>)
    ensures |r| >= 1
    ensures forall k :: 0 <= k < |r| ==> r[k] >= 0
  {
    WidthCuts(s).done + [WidthCuts(s).width]
  }

  /** The decimal digits of n without leading zeros ("%li" for a non-negative value). */
  function Decimal(n: nat): (r: string)
    ensures |r| >= 1
    ensures forall j :: 0 <= j < |r| ==> IsDigit(r[j])
  {
    if n < 10 then [DigitChar(n)] else Decimal(n / 10) + [DigitChar(n % 10)]
  }

  /** "%li" for any value: a minus sign before the digits of a negative one. */
  function IntText(n: int): string
  {
    if n < 0 then "-" + Decimal(-n) else Decimal(n)
  }

  /** getProperty(columnwidths): the first count widths joined by commas, a missing one written as 100. */
  function WidthsText(ws: seq<int>, count: nat): string
  {
    Joined(WidthEntries(ws, count), ',')
  }

  /** The texts of the first count widths, a missing one written as 100. */
  function WidthEntries(ws: seq<int>, count: nat): (r: seq<string>)
    ensures |r| == count
    ensures forall i :: 0 <= i < count ==> r[i] == if i < |ws| then IntText(ws[i]) else "100"
  {
    seq(count, i requires 0 <= i < count => if i < |ws| then IntText(ws[i]) else "100")
  }

  /** Digits shifted into the width being read. */
  function Shifted(w: int, ds: string): int
    requires forall j :: 0 <= j < |ds| ==> IsDigit(ds[j])
  {
    if ds == [] then w else 10 * Shifted(w, ds[..|ds| - 1]) + DigitValue(ds[|ds| - 1])
  }

  /** The width parser reads the decimal digits of n as n. */
  lemma {:induction false} ShiftedDecimal(n: nat)
    ensures Shifted(0, Decimal(n)) == n
  {
    if n >= 10 {
      ShiftedDecimal(n / 10);
      var ds := Decimal(n);
      assert ds[..|ds| - 1] == Decimal(n / 10);
    }
  }

  /** One more character read by the width parser. */
  lemma WidthCutsStep(s: string, c: char)
    ensures WidthCuts(s + [c]) ==
      if c == ',' then WidthCut(WidthCuts(s).done + [WidthCuts(s).width], 0)
      else if IsDigit(c) then WidthCut(WidthCuts(s).done, 10 * WidthCuts(s).width + DigitValue(c))
      else WidthCuts(s)
  {
    assert (s + [c])[..|s|] == s;
  }

  /** Reading digits shifts them into the current width and pushes nothing. */
  lemma {:induction false} WidthCutsDigits(p: string, ds: string)
    requires forall j :: 0 <= j < |ds| ==> IsDigit(ds[j])
    ensures WidthCuts(p + ds) == WidthCut(WidthCuts(p).done, Shifted(WidthCuts(p).width, ds))
    decreases |ds|
  {
    if ds == [] {
      assert p + ds == p;
    } else {
      var d0, ch := ds[..|ds| - 1], ds[|ds| - 1];
      WidthCutsDigits(p, d0);
      assert p + ds == (p + d0) + [ch];
      WidthCutsStep(p + d0, ch);
    }
  }

  /** The texts the width getter writes for a table of widths. */
  function WidthTexts(xs: seq<int>): (r: seq<string>)
    ensures |r| == |xs|
  {
    seq(|xs|, i requires 0 <= i < |xs| => IntText(xs[i]))
  }

  /** The width parser reads back the comma-joined decimals of non-negative widths. */
  lemma {:induction false} WidthCutsJoined(xs: seq<int>)
    requires |xs| >= 1
    requires forall k :: 0 <= k < |xs| ==> xs[k] >= 0
    ensures WidthCuts(Joined(WidthTexts(xs), ',')) == WidthCut(xs[..|xs| - 1], xs[|xs| - 1])
  {
    var ts := WidthTexts(xs);
    var last := xs[|xs| - 1];
    assert ts[|ts| - 1] == Decimal(last);
    if |xs| == 1 {
      WidthCutsDecimal([], [], last);
      assert [] + Decimal(last) == Decimal(last);
    } else {
      var ys := xs[..|xs| - 1];
      var j := Joined(WidthTexts(ys), ',');
      assert Joined(ts, ',') == j + [','] + Decimal(last) by {
        assert ts[..|ts| - 1] == WidthTexts(ys);
      }
      assert WidthCuts(j + [',']) == WidthCut(ys, 0) by {
        WidthCutsStep(j, ',');
        WidthCutsJoined(ys);
        assert ys[..|ys| - 1] + [ys[|ys| - 1]] == ys;
      }
      WidthCutsDecimal(j + [','], ys, last);
    }
  }

  /** After a comma, the decimal of a width is read back as that width. */
  lemma WidthCutsDecimal(p: string, done: seq<int>, n: nat)
    requires WidthCuts(p) == WidthCut(done, 0)
    ensures WidthCuts(p + Decimal(n)) == WidthCut(done, n)
  {
    WidthCutsDigits(p, Decimal(n));
    ShiftedDecimal(n);
  }

  /** Reading back what the width getter wrote restores the first count widths, completed with 100. */
  lemma WidthsRoundTrip(ws: seq<int>, count: nat)
    requires count >= 1
    requires forall i :: 0 <= i < count && i < |ws| ==> ws[i] >= 0
    ensures Widths(WidthsText(ws, count)) == Padded(ws, count, 100)
  {
    var xs := Padded(ws, count, 100);
    assert DigitChar(1) == '1' && DigitChar(0) == '0';
    assert Decimal(10) == "10";
    assert IntText(100) == "100";
    assert WidthTexts(xs) == WidthEntries(ws, count);
    WidthCutsJoined(xs);
    assert xs[..|xs| - 1] + [xs[|xs| - 1]] == xs;
  }

  // ---------------------------------------------------------------------------
  // $columnaligns
  // ---------------------------------------------------------------------------

  /** A column's justification (jstLeft, jstRight, jstCenter). */
  datatype Align = Left | Right | Center

  /** The justification a letter selects, either case. */
  function AlignOf(c: char): (r: Option<Align>)
    ensures r == Some(Left) <==> c == 'l' || c == 'L'
    ensures r == Some(Right) <==> c == 'r' || c == 'R'
    ensures r == Some(Center) <==> c == 'c' || c == 'C'
  {
    if c == 'l' || c == 'L' then Some(Left)
    else if c == 'r' || c == 'R' then Some(Right)
    else if c == 'c' || c == 'C' then Some(Center)
    else None
  }

  /** The setter's loop: one more character adds the justification it selects, if any. */
  lemma LettersStep(s: string, i: nat)
    requires 1 <= i < |s|
    ensures Letters(s[1..i + 1]) == Letters(s[1..i]) + (match AlignOf(s[i]) case None => [] case Some(a) => [a])
  {
    assert s[1..i + 1][..i - 1] == s[1..i];
  }

  /** The justifications the letters of s select, other characters skipped. */
  function Letters(s: string): (r: seq<Align>)
    ensures |r| <= |s|
  {
    if s == [] then []
    else
      var r := Letters(s[..|s| - 1]);
      match AlignOf(s[|s| - 1])
      case None => r
      case Some(a) => r + [a]
  }

  /** setProperty(columnaligns): the first column is always left, the first character is skipped. */
  function Aligns(s: string): (r: seq<Align>)
    ensures |r| >= 1 && r[0] == Left
  {
    [Left] + (if |s| <= 1 then [] else Letters(s[1..]))
  }

  /** The letter the getter writes for a justification. */
  function AlignLetter(a: Align): (c: char)
    ensures AlignOf(c) == Some(a)
  {
    match a
    case Left => 'L'
    case Right => 'R'
    case Center => 'C'
  }

  /**
   * getProperty(columnaligns) as written: column i's letter comes from the justification
   * table whenever i is below the number of WIDTHS, so it reads that table past its end
   * when there are fewer justifications than widths.
   */
  predicate AlignsGetterInBounds(aligns: seq<Align>, widthCount: nat, count: nat)
  {
    Min(count, widthCount) <= |aligns|
  }

  function AlignsTextAsWritten(aligns: seq<Align>, widthCount: nat, count: nat): (r: string)
    requires AlignsGetterInBounds(aligns, widthCount, count)
    ensures |r| == count
  {
    seq(count, i requires 0 <= i < count => if i < widthCount then AlignLetter(aligns[i]) else 'L')
  }

  /** Two widths and one justification: the getter reads the second entry of a one-entry table. */
  lemma AlignsGetterOverruns()
    ensures !AlignsGetterInBounds([Left], |[100, 100]|, 2)
  {
    assert |[100, 100]| == 2 && |[Left]| == 1;
  }

  /** getProperty(columnaligns) as intended: the guard is the number of justifications. */
  function AlignsText(aligns: seq<Align>, count: nat): (r: string)
    ensures |r| == count
  {
    seq(count, i requires 0 <= i < count => if i < |aligns| then AlignLetter(aligns[i]) else 'L')
  }

  /** Wherever the written getter stays in bounds and the table covers the widths, both getters agree. */
  lemma AlignsGettersAgree(aligns: seq<Align>, widthCount: nat, count: nat)
    requires AlignsGetterInBounds(aligns, widthCount, count)
    requires |aligns| <= widthCount
    ensures AlignsTextAsWritten(aligns, widthCount, count) == AlignsText(aligns, count)
  {
    var a, b := AlignsTextAsWritten(aligns, widthCount, count), AlignsText(aligns, count);
    assert forall i :: 0 <= i < count ==> a[i] == b[i];
  }

  /** Reading text made only of justification letters gives one justification per letter. */
  lemma {:induction false} LettersOfText(s: string, xs: seq<Align>)
    requires |s| == |xs|
    requires forall i :: 0 <= i < |s| ==> AlignOf(s[i]) == Some(xs[i])
    ensures Letters(s) == xs
  {
    if s != [] {
      LettersOfText(s[..|s| - 1], xs[..|xs| - 1]);
      assert xs[..|xs| - 1] + [xs[|xs| - 1]] == xs;
    }
  }

  /** Reading back what the corrected getter wrote restores the table, completed with left justification. */
  lemma AlignsRoundTrip(aligns: seq<Align>, count: nat)
    requires count >= 1
    requires |aligns| >= 1 ==> aligns[0] == Left
    ensures Aligns(AlignsText(aligns, count)) == Padded(aligns, count, Left)
  {
    var t := AlignsText(aligns, count);
    var xs := Padded(aligns, count, Left);
    if count > 1 {
      LettersOfText(t[1..], xs[1..]);
    }
    assert xs == [Left] + xs[1..];
  }

  // ---------------------------------------------------------------------------
  // $verticalextend
  // ---------------------------------------------------------------------------

  /** The number of columns with a vertical-extend flag, inferred from the setter's loop and drawRow's guard, since the declaration is not part of this model. */
  const ExtendSlots: nat := 256

  /** setProperty(verticalExtend): flag i is set by 't' or 'T', and by default past the end of the text. */
  function ExtendFlags(s: string): (r: seq<bool>)
    ensures |r| == ExtendSlots
    ensures forall i :: 0 <= i < ExtendSlots && i >= |s| ==> r[i]
    ensures forall i :: 0 <= i < ExtendSlots && i < |s| ==> (r[i] <==> s[i] == 't' || s[i] == 'T')
  {
    seq(ExtendSlots, i requires 0 <= i < ExtendSlots => i >= |s| || s[i] == 't' || s[i] == 'T')
  }

  /**
   * getProperty(verticalExtend) as written: one letter per column taken from the flag
   * table, which has only 256 entries, so more than 256 columns read past its end.
   */
  function ExtendTextAsWritten(flags: seq<bool>, count: nat): (r: string)
    requires count <= |flags|
    ensures |r| == count
  {
    seq(count, i requires 0 <= i < count => if flags[i] then 'T' else 'F')
  }

  /** 257 columns: the written getter needs a 257th flag the table does not have. */
  lemma ExtendGetterOverruns(flags: seq<bool>)
    requires |flags| == ExtendSlots
    ensures !(257 <= |flags|)
  {
  }

  /** getProperty(verticalExtend) as intended: columns past the table are written as not extended, as drawRow treats them. */
  function ExtendText(flags: seq<bool>, count: nat): (r: string)
    requires |flags| == ExtendSlots
    ensures |r| == count
  {
    seq(count, i requires 0 <= i < count => if i < ExtendSlots && flags[i] then 'T' else 'F')
  }

  /** Up to 256 columns the two getters agree. */
  lemma ExtendGettersAgree(flags: seq<bool>, count: nat)
    requires |flags| == ExtendSlots && count <= ExtendSlots
    ensures ExtendTextAsWritten(flags, count) == ExtendText(flags, count)
  {
  }

  /** Reading back the getter's text restores the flags of the first count columns; the rest become set. */
  lemma ExtendRoundTrip(flags: seq<bool>, count: nat)
    requires |flags| == ExtendSlots
    ensures forall i :: 0 <= i < ExtendSlots ==> ExtendFlags(ExtendText(flags, count))[i] == (i >= count || flags[i])
  {
  }

  // ---------------------------------------------------------------------------
  // checkColumns
  // ---------------------------------------------------------------------------

  /** checkColumns on the width table: missing widths become 100, widths below 10 of the first count columns become 10. */
  function CheckedWidths(ws: seq<int>, count: nat): seq<int>
  {
    seq(Max(|ws|, count), i requires 0 <= i < Max(|ws|, count) =>
      if i >= |ws| then 100 else if i < count && ws[i] < 10 then 10 else ws[i])
  }

  /** checkColumns on a table that is only completed: missing entries become pad. */
  function Completed<T>(xs: seq<T>, count: nat, pad: T): seq<T>
  {
    seq(Max(|xs|, count), i requires 0 <= i < Max(|xs|, count) => if i < |xs| then xs[i] else pad)
  }

  /** checkColumns asks for a new layout when it adds a width or a calculation or raises a width. */
  predicate ColumnsNeedUpdate(ws: seq<int>, calcs: seq<string>, count: nat)
  {
    count > |ws| || count > |calcs| || exists i :: 0 <= i < count && i < |ws| && ws[i] < 10
  }

  /** One more turn of the checkColumns loop on the widths, at column i. */
  lemma CheckedWidthsStep(ws: seq<int>, i: nat)
    ensures var c := CheckedWidths(ws, i);
      CheckedWidths(ws, i + 1) == if i >= |c| then c + [100] else if c[i] < 10 then c[i := 10] else c
  {
    var c := CheckedWidths(ws, i);
    var c' := if i >= |c| then c + [100] else if c[i] < 10 then c[i := 10] else c;
    assert forall j :: 0 <= j < |c'| ==> CheckedWidths(ws, i + 1)[j] == c'[j];
  }

  /** One more turn of the checkColumns loop on a table that is only completed, at column i. */
  lemma CompletedStep<T>(xs: seq<T>, i: nat, pad: T)
    ensures var c := Completed(xs, i, pad);
      Completed(xs, i + 1, pad) == if i >= |c| then c + [pad] else c
  {
    var c := Completed(xs, i, pad);
    var c' := if i >= |c| then c + [pad] else c;
    assert forall j :: 0 <= j < |c'| ==> Completed(xs, i + 1, pad)[j] == c'[j];
  }

  /** Column i asks for new positions when the loop adds or raises its width or adds its calculation. */
  lemma NeedUpdateStep(ws: seq<int>, calcs: seq<string>, i: nat)
    ensures ColumnsNeedUpdate(ws, calcs, i + 1) ==
      (ColumnsNeedUpdate(ws, calcs, i) || i >= |CheckedWidths(ws, i)| || CheckedWidths(ws, i)[i] < 10 || i >= |Completed(calcs, i, "")|)
  {
  }

  /** After checkColumns every column has a width of at least 10 and the other entries are kept. */
  lemma CheckedWidthsMeaning(ws: seq<int>, count: nat)
    ensures |CheckedWidths(ws, count)| >= count && |CheckedWidths(ws, count)| >= |ws|
    ensures forall i :: 0 <= i < count ==> CheckedWidths(ws, count)[i] >= 10
    ensures forall i :: 0 <= i < |ws| && (i >= count || ws[i] >= 10) ==> CheckedWidths(ws, count)[i] == ws[i]
    ensures forall i :: |ws| <= i < count ==> CheckedWidths(ws, count)[i] == 100
  {
  }

  /** A second checkColumns changes nothing and asks for no new layout. */
  lemma CheckedIdempotent(ws: seq<int>, aligns: seq<Align>, calcs: seq<string>, count: nat)
    ensures CheckedWidths(CheckedWidths(ws, count), count) == CheckedWidths(ws, count)
    ensures Completed(Completed(aligns, count, Left), count, Left) == Completed(aligns, count, Left)
    ensures Completed(Completed(calcs, count, ""), count, "") == Completed(calcs, count, "")
    ensures !ColumnsNeedUpdate(CheckedWidths(ws, count), Completed(calcs, count, ""), count)
  {
  }

  /** A table that already covers every column with valid widths asks for no update and is left as it is. */
  lemma CheckedNoChange(ws: seq<int>, calcs: seq<string>, count: nat)
    requires !ColumnsNeedUpdate(ws, calcs, count)
    ensures CheckedWidths(ws, count) == ws && Completed(calcs, count, "") == calcs
  {
  }
}
