/** Data preparation for categorical columns (src/data_prep/categorical.py).

    A data frame is a map from column names to columns; a column is a sequence
    of cells, one per row. A cell holds a string or the missing value (NaN). */
module Categorical {
  import opened Wrappers

  datatype Cell = Text(s: string) | Missing

  type Column = seq<Cell>

  type Frame = map<string, Column>

  /** The exceptions the two frame operations can raise. */
  datatype FrameError =
    | KeyError(key: string)   // the named column is not in the frame
    | AttributeError          // `.lower()` called on a missing value

  /** Every column of `df` has `rows` cells. */
  ghost predicate HasRows(df: Frame, rows: nat)
  {
    forall c :: c in df ==> |df[c]| == rows
  }

  // ---------------------------------------------------------------- lowercase

  predicate IsUpper(c: char) { 'A' <= c <= 'Z' }

  predicate IsAsciiLetter(c: char) { 'A' <= c <= 'Z' || 'a' <= c <= 'z' }

  /** ASCII lowercasing of one character; every other character is kept. */
  function LowerChar(c: char): (l: char)
    ensures !IsUpper(l)
    ensures IsUpper(c) ==> IsAsciiLetter(l) && l as int == c as int + 32
    ensures !IsUpper(c) ==> l == c
  {
    if IsUpper(c) then (c as int + 32) as char else c
  }

  /** `lowercase_string`: `str.lower` restricted to ASCII. */
  function LowercaseString(s: string): (r: string)
    ensures |r| == |s|
    ensures forall i :: 0 <= i < |s| ==> r[i] == LowerChar(s[i])
    ensures forall i :: 0 <= i < |r| ==> !IsUpper(r[i])
  {
    if |s| == 0 then [] else [LowerChar(s[0])] + LowercaseString(s[1..])
  }

  /** Lowercasing twice is lowercasing once. */
  lemma {:induction false} LowercaseIdempotent(s: string)
    ensures LowercaseString(LowercaseString(s)) == LowercaseString(s)
  {
    var once := LowercaseString(s);
    var twice := LowercaseString(once);
    forall i | 0 <= i < |s|
      ensures twice[i] == once[i]
    {
      assert !IsUpper(once[i]);
    }
  }

  function LowercaseCells(column: Column): (r: Column)
    requires forall i :: 0 <= i < |column| ==> column[i].Text?
    ensures |r| == |column|
    ensures forall i :: 0 <= i < |r| ==> r[i] == Text(LowercaseString(column[i].s))
  {
    seq(|column|, i requires 0 <= i < |column| => Text(LowercaseString(column[i].s)))
  }

  /** `lowercase_column`: replaces column `col` by its lowercased cells. A
      missing column is a `KeyError`; a missing value in it makes `.lower()`
      raise `AttributeError`. */
  function LowercaseColumn(df: Frame, col: string): (r: Result<Frame, FrameError>)
    ensures col !in df ==> r == Failure(KeyError(col))
    ensures col in df && (exists i :: 0 <= i < |df[col]| && df[col][i].Missing?) ==>
      r == Failure(AttributeError)
    ensures r.Success? <==> col in df && forall i :: 0 <= i < |df[col]| ==> df[col][i].Text?
    ensures r.Success? ==> r.value.Keys == df.Keys
    ensures r.Success? ==> |r.value[col]| == |df[col]|
    ensures r.Success? ==> forall i :: 0 <= i < |df[col]| ==>
      r.value[col][i] == Text(LowercaseString(df[col][i].s))
    ensures r.Success? ==> forall c :: c in df && c != col ==> r.value[c] == df[c]
  {
    if col !in df then Failure(KeyError(col))
    else if exists i :: 0 <= i < |df[col]| && df[col][i].Missing? then Failure(AttributeError)
    else Success(df[col := LowercaseCells(df[col])])
  }

  /** Lowercasing a column keeps the frame rectangular. */
  lemma LowercaseColumnKeepsRows(df: Frame, col: string, rows: nat)
    requires HasRows(df, rows)
    requires LowercaseColumn(df, col).Success?
    ensures HasRows(LowercaseColumn(df, col).value, rows)
  {
  }

  /** Lowercasing a column a second time changes nothing. */
  lemma LowercaseColumnIdempotent(df: Frame, col: string)
    requires LowercaseColumn(df, col).Success?
    ensures LowercaseColumn(LowercaseColumn(df, col).value, col) == LowercaseColumn(df, col)
  {
    var once: Frame := LowercaseColumn(df, col).value;
    forall i | 0 <= i < |df[col]|
      ensures LowercaseString(once[col][i].s) == once[col][i].s
    {
      LowercaseIdempotent(df[col][i].s);
    }
    assert forall i :: 0 <= i < |once[col]| ==> once[col][i].Text?;
    assert LowercaseCells(once[col]) == once[col];
    assert once[col := once[col]] == once;
  }

  // ------------------------------------------------------------ title pattern

  /** Regular-expression semantics of ` ([A-Za-z]+)\.` : the pattern matches
      starting at position `p` of `s` with `t` as its captured group. */
  ghost predicate TitleMatch(s: string, p: int, t: string)
  {
    && 0 <= p
    && p + |t| + 2 <= |s|
    && 0 < |t|
    && s[p] == ' '
    && s[p + 1 .. p + 1 + |t|] == t
    && (forall k :: 0 <= k < |t| ==> IsAsciiLetter(t[k]))
    && s[p + 1 + |t|] == '.'
  }

  /** A match at `p` capturing `t` with no match of any kind further left: the
      match a regular-expression search reports. */
  ghost predicate LeftmostTitleMatch(s: string, p: int, t: string)
  {
    TitleMatch(s, p, t) && forall q, u :: 0 <= q < p ==> !TitleMatch(s, q, u)
  }

  /** The end of the run of ASCII letters that starts at `j`. */
  function LetterRunEnd(s: string, j: nat): (q: nat)
    requires j <= |s|
    ensures j <= q <= |s|
    ensures forall k :: j <= k < q ==> IsAsciiLetter(s[k])
    ensures q == |s| || !IsAsciiLetter(s[q])
    decreases |s| - j
  {
    if j < |s| && IsAsciiLetter(s[j]) then LetterRunEnd(s, j + 1) else j
  }

  /** The scanner at one position: a space, the maximal letter run after it,
      and a period right after the run. */
  function MatchAt(s: string, p: nat): (r: Option<string>)
    requires p < |s|
    ensures r.Some? ==> TitleMatch(s, p, r.value)
  {
    if s[p] != ' ' then None
    else
      var q := LetterRunEnd(s, p + 1);
      if p + 1 < q < |s| && s[q] == '.' then Some(s[p + 1 .. q]) else None
  }

  /** The scanner finds every match: since the captured letters are followed
      by a period, backtracking into a shorter letter run never matches. */
  lemma {:induction false} MatchAtComplete(s: string, p: nat, t: string)
    requires p < |s|
    requires TitleMatch(s, p, t)
    ensures MatchAt(s, p) == Some(t)
  {
    var e := p + 1 + |t|;
    forall k | p + 1 <= k < e
      ensures IsAsciiLetter(s[k])
    {
      assert s[k] == t[k - (p + 1)];
    }
    assert !IsAsciiLetter(s[e]);
    assert LetterRunEnd(s, p + 1) == e;
  }

  /** The leftmost position at or after `from` where the scanner matches. */
  function FirstMatchFrom(s: string, from: nat): (r: Option<nat>)
    requires from <= |s|
    ensures r.Some? ==> from <= r.value < |s| && MatchAt(s, r.value).Some?
    ensures r.Some? ==> forall q :: from <= q < r.value ==> MatchAt(s, q).None?
    ensures r.None? ==> forall q :: from <= q < |s| ==> MatchAt(s, q).None?
    decreases |s| - from
  {
    if from == |s| then None
    else if MatchAt(s, from).Some? then Some(from)
    else FirstMatchFrom(s, from + 1)
  }

  /** `str.extract(r" ([A-Za-z]+)\.")` on one string: the captured letters of
      the leftmost match, or `None` (NaN) when there is none. */
  function ExtractTitle(s: string): (r: Option<string>)
    ensures r.Some? ==> 0 < |r.value|
    ensures r.Some? ==> forall k :: 0 <= k < |r.value| ==> IsAsciiLetter(r.value[k])
  {
    match FirstMatchFrom(s, 0)
    case Some(p) => MatchAt(s, p)
    case None => None
  }

  /** An extracted title is the capture of the leftmost match. */
  lemma ExtractTitleIsLeftmost(s: string)
    requires ExtractTitle(s).Some?
    ensures exists p :: LeftmostTitleMatch(s, p, ExtractTitle(s).value)
  {
    var p := FirstMatchFrom(s, 0).value;
    var t := ExtractTitle(s).value;
    forall q, u | 0 <= q < p
      ensures !TitleMatch(s, q, u)
    {
      if TitleMatch(s, q, u) {
        MatchAtComplete(s, q, u);
      }
    }
    assert LeftmostTitleMatch(s, p, t);
  }

  /** Whenever a leftmost match exists, its capture is the extracted title. */
  lemma ExtractTitleFindsLeftmost(s: string, p: int, t: string)
    requires LeftmostTitleMatch(s, p, t)
    ensures ExtractTitle(s) == Some(t)
  {
    MatchAtComplete(s, p, t);
    var first := FirstMatchFrom(s, 0);
    if first.value < p {
      assert false;
    }
  }

  /** The title is missing exactly when the pattern matches nowhere. */
  lemma ExtractTitleMissingIffNoMatch(s: string)
    ensures ExtractTitle(s).None? <==> forall p, t :: !TitleMatch(s, p, t)
  {
    if ExtractTitle(s).None? {
      forall p, t | TitleMatch(s, p, t)
        ensures false
      {
        MatchAtComplete(s, p, t);
      }
    }
  }

  // ------------------------------------------------------------ title column

  /** The extracted title of one cell; a missing cell stays missing. */
  function TitleCell(c: Cell): Cell
  {
    match c
    case Missing => Missing
    case Text(s) =>
      match ExtractTitle(s)
      case Some(t) => Text(t)
      case None => Missing
  }

  /** `np.where(title.isin(keys), title.map(d), title)` on one cell. */
  function RemapCell(c: Cell, replaceDict: map<string, Cell>): Cell
  {
    if c.Text? && c.s in replaceDict then replaceDict[c.s] else c
  }

  /** Python's truth value of the optional dictionary: absent or empty is false. */
  predicate ShouldRemap(replaceDict: Option<map<string, Cell>>)
  {
    replaceDict.Some? && |replaceDict.value| > 0
  }

  function TitleColumn(column: Column, replaceDict: Option<map<string, Cell>>): (r: Column)
    ensures |r| == |column|
  {
    seq(|column|, i requires 0 <= i < |column| =>
      if ShouldRemap(replaceDict) then RemapCell(TitleCell(column[i]), replaceDict.value)
      else TitleCell(column[i]))
  }

  /** `extract_title`: writes the (optionally remapped) titles of column `col`
      into column `titleCol`, adding it if needed. */
  function ExtractTitleColumn(df: Frame, col: string, replaceDict: Option<map<string, Cell>>,
                              titleCol: string): (r: Result<Frame, FrameError>)
    ensures r.Failure? <==> col !in df
    ensures r.Failure? ==> r.error == KeyError(col)
    ensures r.Success? ==> r.value.Keys == df.Keys + {titleCol}
    ensures r.Success? ==> |r.value[titleCol]| == |df[col]|
    ensures r.Success? ==> forall c :: c in df && c != titleCol ==> r.value[c] == df[c]
  {
    if col !in df then Failure(KeyError(col))
    else Success(df[titleCol := TitleColumn(df[col], replaceDict)])
  }

  /** With the dictionary absent or empty, the title column holds exactly the
      extracted titles: the capture of the leftmost match, else missing. */
  lemma ExtractTitleColumnWithoutRemap(df: Frame, col: string,
                                       replaceDict: Option<map<string, Cell>>,
                                       titleCol: string, i: int)
    requires col in df
    requires replaceDict.None? || replaceDict.value == map[]
    requires 0 <= i < |df[col]|
    ensures var title := ExtractTitleColumn(df, col, replaceDict, titleCol).value[titleCol][i];
      && (df[col][i].Missing? ==> title == Missing)
      && (df[col][i].Text? ==>
            (title == Missing <==> forall p, t :: !TitleMatch(df[col][i].s, p, t))
            && forall p, t :: LeftmostTitleMatch(df[col][i].s, p, t) ==> title == Text(t))
  {
    var r := ExtractTitleColumn(df, col, replaceDict, titleCol).value;
    assert r[titleCol] == TitleColumn(df[col], replaceDict);
    if df[col][i].Text? {
      var s := df[col][i].s;
      ExtractTitleMissingIffNoMatch(s);
      forall p, t | LeftmostTitleMatch(s, p, t)
        ensures r[titleCol][i] == Text(t)
      {
        ExtractTitleFindsLeftmost(s, p, t);
      }
    }
  }

  /** With a non-empty dictionary, a title that is one of its keys becomes the
      key's value and every other cell, a missing one included, is kept. */
  lemma ExtractTitleColumnRemap(df: Frame, col: string, replaceDict: map<string, Cell>,
                                titleCol: string, i: int)
    requires col in df
    requires |replaceDict| > 0
    requires 0 <= i < |df[col]|
    ensures var title := ExtractTitleColumn(df, col, Some(replaceDict), titleCol).value[titleCol][i];
      && (TitleCell(df[col][i]).Text? && TitleCell(df[col][i]).s in replaceDict ==>
            title == replaceDict[TitleCell(df[col][i]).s])
      && (TitleCell(df[col][i]).Missing? ==> title == Missing)
      && (TitleCell(df[col][i]).Text? && TitleCell(df[col][i]).s !in replaceDict ==>
            title == TitleCell(df[col][i]))
  {
  }

  /** Extracting titles keeps the frame rectangular. */
  lemma ExtractTitleColumnKeepsRows(df: Frame, col: string,
                                    replaceDict: Option<map<string, Cell>>,
                                    titleCol: string, rows: nat)
    requires HasRows(df, rows)
    requires col in df
    ensures HasRows(ExtractTitleColumn(df, col, replaceDict, titleCol).value, rows)
  {
  }

  /** A name with a title after a space yields the title; a title at the very
      start of the string has no space before it and is not found. */
  lemma ExampleTitle()
    ensures ExtractTitle("Braund, Mr. Owen Harris") == Some("Mr")
    ensures ExtractTitle("Mr. Smith") == None
  {
    var s := "Braund, Mr. Owen Harris";
    assert TitleMatch(s, 7, "Mr");
    assert LeftmostTitleMatch(s, 7, "Mr");
    ExtractTitleFindsLeftmost(s, 7, "Mr");
    var s2 := "Mr. Smith";
    assert forall p, t :: !TitleMatch(s2, p, t);
    ExtractTitleMissingIffNoMatch(s2);
  }
}
