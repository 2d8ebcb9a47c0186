/**
 * `query_raw_text_from`, the forgetful lookup of the flat `desc` format: every call rescans
 * the lines. Lines carry the offset at which they start in the original text, in place of
 * the address arithmetic of the source.
 */
module DescCommon {
  import opened Wrappers
  import opened Text
  import opened DescField
  import opened DescParse

  /** A line of the original text and the offset of its first character. */
  datatype Located = Located(line: string, start: nat)

  /** The offset just after the last character of a line (its terminator excluded). */
  function End(l: Located): nat {
    l.start + |l.line|
  }

  /**
   * The lines lie in `text` in order, without overlapping: the condition under which the
   * offsets can be used to slice `text`.
   */
  ghost predicate LinesOf(lines: seq<Located>, text: string) {
    (forall i :: 0 <= i < |lines| ==> End(lines[i]) <= |text|)
    && (forall i, j :: 0 <= i < j < |lines| ==> End(lines[i]) <= lines[j].start)
  }

  /** Every line is the slice of `text` at its offset: the lines originate from `text`. */
  ghost predicate SlicesOf(lines: seq<Located>, text: string) {
    LinesOf(lines, text) && forall i :: 0 <= i < |lines| ==> text[lines[i].start..End(lines[i])] == lines[i].line
  }

  /** `str::lines` with the offset of every line. */
  function LinesWithOffsets(text: string): (r: seq<Located>)
    ensures |r| == |LinesInclusive(text)|
  {
    var ls := LinesInclusive(text);
    seq(|ls|, i requires 0 <= i < |ls| => Located(StripLineEnding(ls[i]), |Concat(ls[..i])|))
  }

  /** A line of `str::lines` is its inclusive line without the terminator. */
  lemma StripLineEndingPrefix(l: string)
    ensures StripLineEnding(l) <= l
  {
  }

  /** Line `i` of `ls`, without its terminator, sits in the concatenation at the offset of line `i`. */
  lemma LineSlice(ls: seq<string>, i: nat)
    requires i < |ls|
    ensures var a, l := |Concat(ls[..i])|, StripLineEnding(ls[i]);
      a + |l| <= |Concat(ls[..i + 1])| <= |Concat(ls)| && Concat(ls)[a..a + |l|] == l
  {
    ConcatSlice(ls, i, i + 1);
    assert ls[i..i + 1] == [ls[i]];
    assert Concat([ls[i]]) == ls[i] + Concat([]);
    StripLineEndingPrefix(ls[i]);
    var a, b := |Concat(ls[..i])|, |Concat(ls[..i + 1])|;
    var l := StripLineEnding(ls[i]);
    assert Concat(ls)[a..b] == ls[i];
    assert Concat(ls)[a..a + |l|] == Concat(ls)[a..b][..|l|];
  }

  /** Offsets of lines grow with the line index. */
  lemma OffsetsGrow(ls: seq<string>, i: nat, j: nat)
    requires i <= j <= |ls|
    ensures |Concat(ls[..i])| <= |Concat(ls[..j])|
  {
    ConcatSlice(ls, i, j);
  }

  /** The lines of `str::lines`, with their offsets, originate from the text. */
  lemma LinesWithOffsetsSlices(text: string)
    ensures SlicesOf(LinesWithOffsets(text), text)
  {
    var ls := LinesInclusive(text);
    var lines := LinesWithOffsets(text);
    ConcatLinesInclusive(text);
    forall i | 0 <= i < |lines|
      ensures End(lines[i]) <= |text| && text[lines[i].start..End(lines[i])] == lines[i].line
    {
      LineSlice(ls, i);
    }
    forall i, j | 0 <= i < j < |lines| ensures End(lines[i]) <= lines[j].start {
      LineSlice(ls, i);
      OffsetsGrow(ls, i + 1, j);
    }
  }

  /** What the header tokenizer makes of every line. */
  function LineTokens(lines: seq<Located>): (toks: seq<Token>)
    ensures |toks| == |lines|
  {
    seq(|lines|, i requires 0 <= i < |lines| => ParseRaw(Trim(lines[i].line)))
  }

  /** A token that is the header of `field`. */
  predicate Names(tok: Token, field: FieldName) {
    tok.Ok? && tok.value.name == NameStr(field)
  }

  /** Index of the first header of `field` at or after `from`, or `|toks|` when there is none. */
  function FindField(toks: seq<Token>, field: FieldName, from: nat): (i: nat)
    requires from <= |toks|
    ensures from <= i <= |toks|
    ensures i < |toks| ==> Names(toks[i], field)
    decreases |toks| - from
  {
    if from == |toks| || Names(toks[from], field) then from else FindField(toks, field, from + 1)
  }

  /** No header of `field` is skipped on the way. */
  lemma {:induction false} FindFieldFirst(toks: seq<Token>, field: FieldName, from: nat, t: nat)
    requires from <= |toks| && from <= t < FindField(toks, field, from)
    ensures !Names(toks[t], field)
    decreases |toks| - from
  {
    if from < t {
      FindFieldFirst(toks, field, from + 1, t);
    }
  }

  /**
   * `query_raw_text_from`: find the first line whose trimmed text is the header of `field`;
   * the value runs from the end of that line to the end of the last line of the run of
   * non-header lines after it, with line breaks trimmed from both ends. No such line, an
   * empty run or an empty value give `None`.
   */
  function QueryRawTextFrom(lines: seq<Located>, text: string, field: FieldName): (r: Option<string>)
    requires LinesOf(lines, text)
  {
    QueryTokens(lines, LineTokens(lines), text, field)
  }

  /** The lookup over the tokens `toks` of the lines. */
  function QueryTokens(lines: seq<Located>, toks: seq<Token>, text: string, field: FieldName): (r: Option<string>)
    requires LinesOf(lines, text) && |toks| == |lines|
  {
    var i := FindField(toks, field, 0);
    if i == |lines| || i + 1 == |lines| || toks[i + 1].Ok? then None
    else
      var value := TrimLineBreaks(Region(lines, toks, text, field));
      if value == [] then None else Some(value)
  }

  /**
   * The value region: from the end of the first header line of `field` to the end of the
   * last line of the non-empty run of non-header lines after it.
   */
  function Region(lines: seq<Located>, toks: seq<Token>, text: string, field: FieldName): string
    requires LinesOf(lines, text) && |toks| == |lines|
    requires var i := FindField(toks, field, 0); i + 1 < |lines| && toks[i + 1].Err?
  {
    var i := FindField(toks, field, 0);
    var m := NextHeader(toks, i + 1);
    assert End(lines[i]) <= lines[m - 1].start;
    text[End(lines[i])..End(lines[m - 1])]
  }

  /** The region ends with the last line of the run: the line before the next header or the end. */
  lemma RegionBounds(lines: seq<Located>, toks: seq<Token>, text: string, field: FieldName)
    requires LinesOf(lines, text) && |toks| == |lines|
    requires var i := FindField(toks, field, 0); i + 1 < |lines| && toks[i + 1].Err?
    ensures var i := FindField(toks, field, 0); var m := NextHeader(toks, i + 1);
      i + 1 < m && (forall t :: i < t < m ==> toks[t].Err?) && (m == |lines| || toks[m].Ok?)
      && End(lines[i]) <= End(lines[m - 1]) && Region(lines, toks, text, field) == text[End(lines[i])..End(lines[m - 1])]
  {
    var i := FindField(toks, field, 0);
    var m := NextHeader(toks, i + 1);
    forall t | i < t < m ensures toks[t].Err? {
      NextHeaderSkips(toks, i + 1, t);
    }
  }

  /** The lookup finds no header exactly when no line is a header of `field`. */
  lemma FindFieldAbsent(toks: seq<Token>, field: FieldName)
    ensures FindField(toks, field, 0) == |toks| <==> forall t :: 0 <= t < |toks| ==> !Names(toks[t], field)
  {
    if FindField(toks, field, 0) == |toks| {
      forall t | 0 <= t < |toks| ensures !Names(toks[t], field) {
        FindFieldFirst(toks, field, 0, t);
      }
    }
  }

  /** No line is a header of `field`: `None`. */
  lemma QueryNoHeader(lines: seq<Located>, toks: seq<Token>, text: string, field: FieldName)
    requires LinesOf(lines, text) && |toks| == |lines|
    requires forall t :: 0 <= t < |lines| ==> !Names(toks[t], field)
    ensures QueryTokens(lines, toks, text, field).None?
  {
    FindFieldAbsent(toks, field);
  }

  /** The first header of `field` is followed by another header or by the end: `None`. */
  lemma QueryEmptyRun(lines: seq<Located>, toks: seq<Token>, text: string, field: FieldName)
    requires LinesOf(lines, text) && |toks| == |lines|
    requires var i := FindField(toks, field, 0); i < |lines| && (i + 1 == |lines| || toks[i + 1].Ok?)
    ensures QueryTokens(lines, toks, text, field).None?
  {
  }

  /**
   * The first header of `field` followed by non-header lines: the value is the region with
   * its line breaks trimmed, `None` exactly when the region holds nothing but line breaks.
   */
  lemma QueryRegion(lines: seq<Located>, toks: seq<Token>, text: string, field: FieldName)
    requires LinesOf(lines, text) && |toks| == |lines|
    requires var i := FindField(toks, field, 0); i + 1 < |lines| && toks[i + 1].Err?
    ensures var r := QueryTokens(lines, toks, text, field);
      (r.None? <==> forall c :: c in Region(lines, toks, text, field) ==> IsLineBreak(c))
      && (r.Some? ==> r.value == TrimLineBreaks(Region(lines, toks, text, field)))
  {
    TrimByEmpty(Region(lines, toks, text, field), IsLineBreak);
  }

  /** A value found never starts or ends with a line break. */
  lemma QueryTrimmed(lines: seq<Located>, toks: seq<Token>, text: string, field: FieldName)
    requires LinesOf(lines, text) && |toks| == |lines|
    ensures var r := QueryTokens(lines, toks, text, field);
      r.Some? ==> r.value != [] && !IsLineBreak(r.value[0]) && !IsLineBreak(r.value[|r.value| - 1])
  {
    var i := FindField(toks, field, 0);
    if i + 1 < |lines| && toks[i + 1].Err? {
      TrimBySlice(Region(lines, toks, text, field), IsLineBreak);
    }
  }
}
