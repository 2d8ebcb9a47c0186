/**
 * Line helpers shared by the `.SRCINFO` engines: `parse_line`, `trimmed_line_is_blank`
 * and the non-blank trimmed lines of a text.
 */
module SrcinfoUtils {
  import opened Wrappers
  import opened Text
  import opened SrcinfoField

  /**
   * `parse_line`: split a line at its first `=`; the left part, right-trimmed, is split into
   * name and architecture, the right part is left-trimmed and becomes the value.
   */
  function ParseLine(line: string): (r: Option<(RawField, string)>)
    ensures r.None? <==> '=' !in line
    ensures r.Some? ==> '=' !in Written(r.value.0) && '_' !in r.value.0.name
    ensures r.Some? ==> Written(r.value.0) <= line
    ensures r.Some? ==> |r.value.1| <= |line| && r.value.1 == line[|line| - |r.value.1|..]
    ensures r.Some? && r.value.1 != [] ==> !IsWhitespace(r.value.1[0])
  {
    match SplitOnce(line, '=')
    case None => None
    case Some((field, value)) =>
      assert TrimEnd(field) <= line by {
        TrimEndByPrefix(field, IsWhitespace);
        assert line[..|field|] == field;
      }
      assert TrimStart(value) == line[|line| - |TrimStart(value)|..] by {
        TrimStartBySuffix(value, IsWhitespace);
        assert line[|field| + 1..] == value;
      }
      TrimStartBySuffix(value, IsWhitespace);
      TrimEndByPrefix(field, IsWhitespace);
      Some((ParseRaw(TrimEnd(field)), TrimStart(value)))
  }

  /**
   * Round trip of `parse_line` from the written side: a field, whitespace, `=`, whitespace
   * and a value that does not start with whitespace read back as that field and value.
   * The value may itself contain `=`.
   */
  lemma ParseLineWritten(raw: RawField, pad1: string, pad2: string, value: string)
    requires '_' !in raw.name && '=' !in Written(raw)
    requires Written(raw) == [] || !IsWhitespace(Written(raw)[|Written(raw)| - 1])
    requires forall c :: c in pad1 ==> IsWhitespace(c)
    requires forall c :: c in pad2 ==> IsWhitespace(c)
    requires value == [] || !IsWhitespace(value[0])
    ensures ParseLine(Written(raw) + pad1 + "=" + pad2 + value) == Some((raw, value))
  {
    var w := Written(raw);
    assert '=' !in pad1;
    assert w + pad1 + "=" + pad2 + value == (w + pad1) + ['='] + (pad2 + value);
    SplitOnceAt(w + pad1, '=', pad2 + value);
    TrimEndPadded(w, pad1);
    TrimStartPadded(pad2, value);
    ParseRawWritten(raw);
  }

  /** `trimmed_line_is_blank`: an empty trimmed line or a `#` comment. */
  predicate TrimmedLineIsBlank(trimmedLine: string) {
    trimmedLine == [] || trimmedLine[0] == '#'
  }

  /** The lines among `ts` that are not blank, in order. */
  function DropBlank(ts: seq<string>): (r: seq<string>)
    ensures |r| <= |ts|
    ensures forall x :: x in r <==> x in ts && !TrimmedLineIsBlank(x)
  {
    if ts == [] then []
    else if TrimmedLineIsBlank(ts[0]) then DropBlank(ts[1..])
    else [ts[0]] + DropBlank(ts[1..])
  }

  /** `non_blank_trimmed_lines`: the lines of a text, trimmed, without the blank ones. */
  function NonBlankTrimmedLines(text: string): (r: seq<string>)
    ensures forall x :: x in r <==> (exists l :: l in Lines(text) && x == Trim(l)) && !TrimmedLineIsBlank(x)
  {
    var ls := Lines(text);
    var ts := seq(|ls|, i requires 0 <= i < |ls| => Trim(ls[i]));
    assert forall x :: x in ts <==> exists l :: l in ls && x == Trim(l) by {
      forall x ensures x in ts <==> exists l :: l in ls && x == Trim(l) {
        if exists l :: l in ls && x == Trim(l) {
          var l :| l in ls && x == Trim(l);
          var i :| 0 <= i < |ls| && ls[i] == l;
          assert ts[i] == x;
        }
      }
    }
    DropBlank(ts)
  }
}
