/**
 * `EmailTemplate`: the HTML body with `{{field}}` tokens, and the list of field
 * names whose tokens are filled in from a row. Reading the template file is not
 * part of this model: the template text is given.
 */
module Templates {
  import opened Wrappers
  import opened Text
  import opened Encoding
  import opened Sheets

  /** The loaded template text and the configured field names, neither changed after construction. */
  datatype EmailTemplate = EmailTemplate(text: string, fields: seq<string>)

  /** The token that stands for `field` in the template. */
  function Token(field: string): (t: string)
    ensures |t| == |field| + 4 && t[0] == '{'
  {
    "{{" + field + "}}"
  }

  /** The text substituted for `field`: the cell, stripped, then run through the encoding repair. */
  function FieldValue(row: Row, field: string): string {
    FixEncoding(Trim(Get(row, field)))
  }

  /**
   * The template after the tokens of `fields` were replaced one field after the
   * other, in list order; every occurrence of a token is replaced, including
   * occurrences that an earlier substitution brought in.
   */
  function Rendered(text: string, fields: seq<string>, row: Row): string
    decreases |fields|
  {
    if fields == [] then text
    else
      var f := fields[|fields| - 1];
      ReplaceAll(Rendered(text, fields[..|fields| - 1], row), Token(f), FieldValue(row, f))
  }

  /** `render(row)`: start from the template and replace each configured field's token in turn. */
  method Render(template: EmailTemplate, row: Row) returns (result: string)
    ensures result == Rendered(template.text, template.fields, row)
    ensures template.fields == [] ==> result == template.text
  {
    var fields := template.fields;
    result := template.text;
    for i := 0 to |fields|
      invariant result == Rendered(template.text, fields[..i], row)
    {
      var field := fields[i];
      var value := Trim(Get(row, field));
      value := FixEncoding(value);
      RenderedNext(template.text, fields, i, row);
      result := ReplaceAll(result, Token(field), value);
    }
    assert fields[..|fields|] == fields;
  }

  /** Rendering with one more field replaces that field's token in the rendering so far. */
  lemma RenderedNext(text: string, fields: seq<string>, i: nat, row: Row)
    requires i < |fields|
    ensures Rendered(text, fields[..i + 1], row)
            == ReplaceAll(Rendered(text, fields[..i], row), Token(fields[i]), FixEncoding(Trim(Get(row, fields[i]))))
  {
    assert fields[..i + 1][..i] == fields[..i];
  }

  /** Rendering with `a + b` is rendering with `a` and then rendering the outcome with `b`. */
  lemma {:induction false} RenderedAppend(text: string, a: seq<string>, b: seq<string>, row: Row)
    ensures Rendered(text, a + b, row) == Rendered(Rendered(text, a, row), b, row)
    decreases |b|
  {
    if b == [] {
      assert a + b == a;
    } else {
      assert (a + b)[..|a + b| - 1] == a + b[..|b| - 1];
      RenderedAppend(text, a, b[..|b| - 1], row);
    }
  }

  /** A template holding none of the configured tokens is sent verbatim, whatever the row holds. */
  lemma {:induction false} RenderedVerbatim(text: string, fields: seq<string>, row: Row)
    requires forall k :: 0 <= k < |fields| ==> !Contains(text, Token(fields[k]))
    ensures Rendered(text, fields, row) == text
    decreases |fields|
  {
    if fields != [] {
      var init := fields[..|fields| - 1];
      RenderedVerbatim(text, init, row);
      ReplaceAllAbsent(text, Token(fields[|fields| - 1]), FieldValue(row, fields[|fields| - 1]));
    }
  }

  /**
   * With `REPLACE_ARRAY_NAMES` unset the only configured name is the empty one,
   * whose token is `{{}}`; a template without it is sent verbatim.
   */
  lemma UnsetFieldListKeepsTemplate(text: string, row: Row)
    requires !Contains(text, "{{}}")
    ensures Rendered(text, [""], row) == text
  {
    assert Token("") == "{{}}";
    RenderedVerbatim(text, [""], row);
  }

  /** A column that is missing from the row, or blank, fills its token with the empty string. */
  lemma BlankCellRendersEmpty(row: Row, field: string)
    requires AllSpace(Get(row, field))
    ensures FieldValue(row, field) == ""
  {
    TrimIsSlice(Get(row, field));
    assert Latin1Encode("") == Some([]);
  }

  /** ASCII text around which the cell has spaces is substituted without them. */
  lemma PaddedAsciiCellIsTrimmed(row: Row, field: string, before: string, value: string, after: string)
    requires Get(row, field) == before + value + after
    requires AllSpace(before) && AllSpace(after) && IsAscii(value)
    requires value == [] || (!IsSpace(value[0]) && !IsSpace(value[|value| - 1]))
    ensures FieldValue(row, field) == value
  {
    TrimFramed(before, value, after);
    FixEncodingKeepsAscii(value);
  }

  /** A cell whose UTF-8 text was misread as Latin-1, with no space at either end, is repaired. */
  lemma MojibakeCellIsRepaired(row: Row, field: string, value: string)
    requires Get(row, field) == Latin1Decode(Utf8Encode(value))
    requires Trim(Get(row, field)) == Get(row, field)
    ensures FieldValue(row, field) == value
  {
    FixEncodingRepairsMojibake(value);
  }

  /** The worked example with every column present: both tokens are filled in place. */
  lemma GreetingFilled(template: string, fields: seq<string>, row: Row)
    requires template == "Hi " + Token("name") + ", your code is " + Token("code") + "." && fields == ["name", "code"]
    requires row == map["name" := "Ann", "code" := "42"]
    ensures Rendered(template, fields, row) == "Hi " + "Ann" + ", your code is " + "42" + "."
  {
    AsciiCell(row, "name");
    AsciiCell(row, "code");
    GreetingRendered(template, fields, row);
  }

  /** The worked example with the `code` column missing: its token is filled with nothing. */
  lemma GreetingMissingCode(template: string, fields: seq<string>, row: Row)
    requires template == "Hi " + Token("name") + ", your code is " + Token("code") + "." && fields == ["name", "code"]
    requires row == map["name" := "Ann"]
    ensures Rendered(template, fields, row) == "Hi " + "Ann" + ", your code is " + "."
  {
    AsciiCell(row, "name");
    BlankCellRendersEmpty(row, "code");
    GreetingRendered(template, fields, row);
  }

  /** The greeting template rendered with any row whose `name` value holds no brace. */
  lemma GreetingRendered(template: string, fields: seq<string>, row: Row)
    requires template == "Hi " + Token("name") + ", your code is " + Token("code") + "." && fields == ["name", "code"]
    requires '{' !in FieldValue(row, "name")
    ensures Rendered(template, fields, row)
            == "Hi " + FieldValue(row, "name") + ", your code is " + FieldValue(row, "code") + "."
  {
    var v, w := FieldValue(row, "name"), FieldValue(row, "code");
    var first := Rendered(template, ["name"], row);
    assert first == ReplaceAll(template, Token("name"), v) by {
      assert ["name"][..0] == [];
    }
    assert Rendered(template, fields, row) == ReplaceAll(first, Token("code"), w) by {
      assert fields[..1] == ["name"];
    }
    var n, c := Token("name"), Token("code");
    assert n[2] == 'n' && 'n' !in ", your code is " + c + ".";
    TwoTokensFilled("Hi ", n, ", your code is ", c, ".", v, w);
  }

  /**
   * Two tokens filled one after the other in a text cut at them: each occurs once,
   * `n` is told apart from the rest by its third character, and no brace comes
   * before either.
   */
  lemma {:induction false} TwoTokensFilled(pre: string, n: string, mid: string, c: string, end: string, v: string, w: string)
    requires |n| > 2 && n[0] == '{' && n[2] !in mid + c + end
    requires |c| > 0 && c[0] == '{'
    requires '{' !in pre && '{' !in mid && '{' !in end && '{' !in v
    ensures ReplaceAll(pre + n + mid + c + end, n, v) == pre + v + mid + c + end
    ensures ReplaceAll(pre + v + mid + c + end, c, w) == pre + v + mid + w + end
  {
    assert pre + n + mid + c + end == pre + n + (mid + c + end);
    MissingCharNotContained(mid + c + end, n, 2);
    FirstCharAbsentNoEarlyMatch(pre, n + mid + c + end, n);
    assert pre + n + (mid + c + end) == pre + (n + mid + c + end);
    ReplaceAllSingle(pre, n, mid + c + end, v);
    assert pre + v + (mid + c + end) == (pre + v + mid) + c + end;
    MissingCharNotContained(end, c, 0);
    FirstCharAbsentNoEarlyMatch(pre + v + mid, c + end, c);
    assert (pre + v + mid) + c + end == (pre + v + mid) + (c + end);
    ReplaceAllSingle(pre + v + mid, c, end, w);
  }

  lemma AsciiCell(row: Row, field: string)
    requires IsAscii(Get(row, field))
    requires Get(row, field) != [] && !IsSpace(Get(row, field)[0]) && !IsSpace(Get(row, field)[|Get(row, field)| - 1])
    ensures FieldValue(row, field) == Get(row, field)
  {
    TrimUntrimmed(Get(row, field));
    FixEncodingKeepsAscii(Get(row, field));
  }

  /**
   * The cell is stripped before it is repaired. The misread form of `voil\U{E0}`
   * ends in U+00A0, the second UTF-8 byte of U+00E0 read as Latin-1, which is
   * whitespace to `strip()`; without it the last character's bytes are incomplete,
   * the decoding fails and the value is sent still misread.
   */
  lemma StripBeforeRepairKeepsMojibake(row: Row, field: string)
    requires Get(row, field) == Latin1Decode(Utf8Encode("voil\U{E0}"))
    ensures Get(row, field) == "voil\U{C3}\U{A0}"
    ensures FieldValue(row, field) == "voil\U{C3}" != "voil\U{E0}"
  {
    MisreadVoila();
    assert Get(row, field) == "" + "voil\U{C3}" + "\U{A0}";
    CutLeadByteIsKept(row, field, "", "voil\U{C3}", "\U{A0}");
  }

  /**
   * A cell whose content, inside any whitespace frame, ends in a Latin-1 lead byte:
   * stripping removes the frame, and the repair then leaves the content alone.
   */
  lemma CutLeadByteIsKept(row: Row, field: string, before: string, kept: string, after: string)
    requires Get(row, field) == before + kept + after && AllSpace(before) && AllSpace(after)
    requires |kept| > 0 && !IsSpace(kept[0]) && 0xC0 <= kept[|kept| - 1] as int < 0x100
    ensures FieldValue(row, field) == kept
  {
    assert !IsSpace(kept[|kept| - 1]);
    TrimFramed(before, kept, after);
    RepairFailsOnTrailingLead(kept);
  }
}
