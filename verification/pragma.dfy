/**
 * Reading one file before its analysis: an empty file is taken to be CommonJS without
 * requires, and a file whose format is not known yet may name it in a leading string
 * directive (`"format esm";`, or `"bundle";` for the register format).
 */
module Pragma {
  import opened JsString
  import Transformer

  /** A file as read from disk. */
  datatype FileSource = FileSource(
    leadingParts: seq<string>,    // the comments and string directives the file opens with, in order
    body: Transformer.Source)     // what the analysis sees (the text after any leading "#" line is commented out)

  /**
   * The directive scan over the leading parts: a part that opens with a quote holds a
   * directive; its text is taken as the part without its first and last two characters.
   * The last directive that names a format wins.
   */
  function DirectiveFormat(parts: seq<string>, format: string): (r: string)
    ensures r == format || exists i :: 0 <= i < |parts| && (Substr(parts[i], 0, 1) == "\"" || Substr(parts[i], 0, 1) == "'")
    decreases |parts|
  {
    if |parts| == 0 then format
    else
      var part := parts[0];
      var firstChar := Substr(part, 0, 1);
      var next :=
        if firstChar != "\"" && firstChar != "'" then format
        else
          var directive := Substr(part, 1, |part| - 3);
          if Substr(directive, 0, 7) == "format " then SubstrFrom(directive, 7)
          else if directive == "bundle" then "register"
          else format;
      DirectiveFormat(parts[1..], next)
  }

  /** A directive closed by a semicolon names its format in full. */
  lemma DirectiveWithSemicolon(f: string, format: string)
    ensures DirectiveFormat(["\"format " + f + "\";"], format) == f
  {
    var part := "\"format " + f + "\";";
    var directive := Substr(part, 1, |part| - 3);
    assert directive == "format " + f;
    assert Substr(directive, 0, 7) == "format ";
    assert SubstrFrom(directive, 7) == f;
    assert ["\"format " + f + "\";"][1..] == [];
  }

  /**
   * A directive without a semicolon loses the last character of its format: the length
   * with the semicolon removed is computed but not used.
   */
  lemma DirectiveWithoutSemicolon(f: string, format: string)
    requires |f| > 0
    ensures DirectiveFormat(["\"format " + f + "\""], format) == f[..|f| - 1]
  {
    var part := "\"format " + f + "\"";
    var directive := Substr(part, 1, |part| - 3);
    assert directive == "format " + f[..|f| - 1];
    assert Substr(directive, 0, 7) == "format ";
    assert SubstrFrom(directive, 7) == f[..|f| - 1];
    assert ["\"format " + f + "\""][1..] == [];
  }

  /** Of two directives the later one decides. */
  lemma LaterDirectiveWins(f: string, g: string, format: string)
    ensures DirectiveFormat(["\"format " + f + "\";", "\"format " + g + "\";"], format) == g
  {
    var parts := ["\"format " + f + "\";", "\"format " + g + "\";"];
    DirectiveWithSemicolon(f, format);
    DirectiveWithSemicolon(g, f);
    assert parts[1..] == ["\"format " + g + "\";"];
    var part := parts[0];
    var directive := Substr(part, 1, |part| - 3);
    assert directive == "format " + f;
    assert Substr(directive, 0, 7) == "format ";
  }

  /** The directive "bundle" stands for the register format. */
  lemma BundleIsRegister(format: string)
    ensures DirectiveFormat(["'bundle';"], format) == "register"
  {
    var part := "'bundle';";
    assert Substr(part, 0, 1) == "'";
    assert Substr(part, 1, |part| - 3) == "bundle";
    assert ["'bundle';"][1..] == [];
  }

  /** Comments, and anything else that does not open with a quote, leave the format alone. */
  lemma {:induction false} CommentsIgnored(parts: seq<string>, format: string)
    requires forall i :: 0 <= i < |parts| ==> Substr(parts[i], 0, 1) != "\"" && Substr(parts[i], 0, 1) != "'"
    ensures DirectiveFormat(parts, format) == format
    decreases |parts|
  {
    if |parts| > 0 {
      assert forall i :: 0 <= i < |parts[1..]| ==> parts[1..][i] == parts[i + 1];
      CommentsIgnored(parts[1..], format);
    }
  }

  /**
   * `parseModule(filePath, format)`: the analysis of a file whose format is `format` ("" when
   * unknown). Directives are read only when no format is known.
   */
  function ParseModule(src: FileSource, format: string): (r: Transformer.Analysis)
    ensures src.body.text == "" ==> r == Transformer.EmptyAnalysis()
    ensures src.body.text != "" && format != "" ==> r == Transformer.Transform(src.body, format)
    ensures src.body.text != "" && format == "" ==>
      r == Transformer.Transform(src.body, DirectiveFormat(src.leadingParts, ""))
  {
    if src.body.text == "" then Transformer.EmptyAnalysis()
    else
      var f := if format == "" then DirectiveFormat(src.leadingParts, format) else format;
      Transformer.Transform(src.body, f)
  }
}
