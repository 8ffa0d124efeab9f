/**
 * Conversion of a block of code lines into one entry of an editor snippet
 * table: escaping of each line, the two forms of the "body" field, and the
 * assembly of the whole entry.
 */
module CodeToSnippet {
  import opened Wrappers
  import opened Text

  // ---------------------------------------------------------------------------
  // Escaping
  // ---------------------------------------------------------------------------

  /** The replacements applied to each line, in this order: a backslash is
      doubled, a double quote gets a backslash, and a dollar sign becomes the
      three characters backslash, backslash, dollar (the snippet escape `\$`,
      itself escaped for a JSON string). */
  const Escapes: seq<(char, string)> := [('\\', @"\\"), ('"', @"\"""), ('$', @"\\$")]

  /** Each replacement is a backslash-led text ending in the character it
      replaces, and holds no character that a later entry replaces, so no
      pass creates work for a later one. */
  lemma EscapesTable()
    ensures |Escapes| == 3
    ensures forall i :: 0 <= i < |Escapes| ==>
              |Escapes[i].1| >= 2 && Escapes[i].1[0] == '\\' && Escapes[i].1[|Escapes[i].1| - 1] == Escapes[i].0
    ensures forall i, j :: 0 <= i < j < |Escapes| ==> Escapes[j].0 !in Escapes[i].1
  {
  }

  /** The result of running the replacements of `table`, in order, over `s`;
      a text holding none of the replaced characters passes through unchanged. */
  function ApplyEscapes(s: string, table: seq<(char, string)>): (r: string)
    ensures (forall k :: 0 <= k < |table| ==> table[k].0 !in s) ==> r == s
  {
    if table == [] then s
    else
      var last := table[|table| - 1];
      ReplaceChar(ApplyEscapes(s, table[..|table| - 1]), last.0, last.1)
  }

  /** What a single character of a line becomes. */
  function EscapeChar(c: char): string
  {
    if c == '\\' then @"\\"
    else if c == '"' then @"\"""
    else if c == '$' then @"\\$"
    else [c]
  }

  /** Escaping, character by character. */
  function Escaped(s: string): string
  {
    if s == [] then [] else EscapeChar(s[0]) + Escaped(s[1..])
  }

  /** Escapes one line by running the replacements of `Escapes` one after the
      other over it; the result is the character-by-character escape. */
  method EscapeCode(line: string) returns (escaped: string)
    ensures escaped == Escaped(line)
  {
    escaped := line;
    for k := 0 to |Escapes|
      invariant escaped == ApplyEscapes(line, Escapes[..k])
    {
      var (from, to) := Escapes[k];
      assert Escapes[..k + 1][..k] == Escapes[..k];
      escaped := ReplaceChar(escaped, from, to);
    }
    assert Escapes[..|Escapes|] == Escapes;
    SequentialIsPerChar(line);
  }

  lemma {:induction false} EscapedAppend(a: string, b: string)
    ensures Escaped(a + b) == Escaped(a) + Escaped(b)
  {
    if a == [] {
      assert a + b == b;
    } else {
      assert (a + b)[0] == a[0];
      assert (a + b)[1..] == a[1..] + b;
      EscapedAppend(a[1..], b);
    }
  }

  /** Running a table over a concatenation runs it over each part: no pass
      ever matches across the boundary. */
  lemma {:induction false} ApplyEscapesAppend(a: string, b: string, table: seq<(char, string)>)
    ensures ApplyEscapes(a + b, table) == ApplyEscapes(a, table) + ApplyEscapes(b, table)
  {
    if table != [] {
      var init, last := table[..|table| - 1], table[|table| - 1];
      ApplyEscapesAppend(a, b, init);
      ReplaceCharAppend(ApplyEscapes(a, init), ApplyEscapes(b, init), last.0, last.1);
    }
  }

  /** The table run over a single character gives that character's escape. */
  lemma ApplyEscapesOnChar(x: char)
    ensures ApplyEscapes([x], Escapes) == EscapeChar(x)
  {
    assert Escapes[..1][..0] == [];
    assert Escapes[..2][..1] == Escapes[..1];
    assert Escapes[..|Escapes| - 1] == Escapes[..2];
    var p1 := ApplyEscapes([x], Escapes[..1]);
    assert p1 == ReplaceChar([x], '\\', @"\\");
    var p2 := ApplyEscapes([x], Escapes[..2]);
    assert p2 == ReplaceChar(p1, '"', @"\""");
  }

  /** Running the table in order equals the character-by-character escape. */
  lemma {:induction false} SequentialIsPerChar(s: string)
    ensures ApplyEscapes(s, Escapes) == Escaped(s)
  {
    if s != [] {
      assert s == [s[0]] + s[1..];
      ApplyEscapesAppend([s[0]], s[1..], Escapes);
      ApplyEscapesOnChar(s[0]);
      SequentialIsPerChar(s[1..]);
    }
  }

  /** A line without a backslash, double quote or dollar sign is left as it is. */
  lemma {:induction false} EscapedSafeUnchanged(s: string)
    requires '\\' !in s && '"' !in s && '$' !in s
    ensures Escaped(s) == s
  {
    if s != [] {
      EscapedSafeUnchanged(s[1..]);
      assert s == [s[0]] + s[1..];
    }
  }

  /** Each backslash and double quote adds one character, each dollar sign two. */
  lemma {:induction false} EscapedLength(s: string)
    ensures |Escaped(s)| == |s| + Occurrences(s, '\\') + Occurrences(s, '"') + 2 * Occurrences(s, '$')
  {
    if s != [] {
      EscapedLength(s[1..]);
    }
  }

  /** Characters other than the three escaped ones occur in the escaped line
      exactly when they occur in the line; in particular no newline appears. */
  lemma {:induction false} EscapedKeepsOtherChars(s: string, x: char)
    requires x != '\\' && x != '"' && x != '$'
    ensures x in Escaped(s) <==> x in s
  {
    if s != [] {
      EscapedKeepsOtherChars(s[1..], x);
      assert s == [s[0]] + s[1..];
    }
  }

  /** The escaped text of a line never begins with a dollar sign. */
  lemma EscapedStart(s: string)
    requires s != []
    ensures Escaped(s)[0] != '$'
  {
  }

  // ---------------------------------------------------------------------------
  // Reading the escaped text back
  // ---------------------------------------------------------------------------

  /** The text a snippet reader receives for a line once the JSON string has
      been read: every dollar sign carries the snippet escape `\$`. */
  function SnippetText(s: string): string
  {
    if s == [] then []
    else (if s[0] == '$' then @"\$" else [s[0]]) + SnippetText(s[1..])
  }

  /** Reads the inside of a JSON string literal that uses the escapes `\\` and
      `\"`; a bare double quote, or a backslash not followed by one of those
      two characters, is rejected. */
  function JsonUnquote(t: string): Option<string>
  {
    if t == [] then Some([])
    else if t[0] == '"' then None
    else if t[0] == '\\' then
      if |t| >= 2 && (t[1] == '\\' || t[1] == '"') then
        match JsonUnquote(t[2..])
        case Some(u) => Some([t[1]] + u)
        case None => None
      else None
    else
      match JsonUnquote(t[1..])
      case Some(u) => Some([t[0]] + u)
      case None => None
  }

  /** A two-character escape in front of readable text reads as its second character. */
  lemma {:induction false} JsonUnquoteAppend(e: string, rest: string, u: string)
    requires e == @"\\" || e == @"\"""
    requires JsonUnquote(rest) == Some(u)
    ensures JsonUnquote(e + rest) == Some([e[1]] + u)
  {
    assert (e + rest)[2..] == rest;
  }

  /** An escaped line is a well-formed JSON string body, and reading it gives
      the line with each dollar sign escaped for the snippet syntax. */
  lemma {:induction false} JsonReadsEscaped(s: string)
    ensures JsonUnquote(Escaped(s)) == Some(SnippetText(s))
  {
    if s != [] {
      var x, rest := s[0], s[1..];
      JsonReadsEscaped(rest);
      var er := Escaped(rest);
      var u := SnippetText(rest);
      if x == '\\' {
        JsonUnquoteAppend(@"\\", er, u);
      } else if x == '"' {
        JsonUnquoteAppend(@"\""", er, u);
      } else if x == '$' {
        var t := @"\\$" + er;
        assert t[2..] == ['$'] + er;
        assert (['$'] + er)[1..] == er;
        assert JsonUnquote(['$'] + er) == Some(['$'] + u);
        assert [t[1]] + (['$'] + u) == @"\$" + u;
        assert JsonUnquote(t) == Some(@"\$" + u);
      } else {
        assert ([x] + er)[1..] == er;
      }
    }
  }

  /** Undoes the escaping: `\\$` is a dollar sign, `\\` a backslash, `\"` a
      double quote, and any other character stands for itself. */
  function Unescape(t: string): string
  {
    if |t| >= 3 && t[0] == '\\' && t[1] == '\\' && t[2] == '$' then ['$'] + Unescape(t[3..])
    else if |t| >= 2 && t[0] == '\\' && (t[1] == '\\' || t[1] == '"') then [t[1]] + Unescape(t[2..])
    else if t == [] then []
    else [t[0]] + Unescape(t[1..])
  }

  /** No information is lost by escaping: it is undone by `Unescape`. */
  lemma {:induction false} UnescapeEscaped(s: string)
    ensures Unescape(Escaped(s)) == s
  {
    if s != [] {
      var x, rest := s[0], s[1..];
      var er := Escaped(rest);
      UnescapeEscaped(rest);
      var t := EscapeChar(x) + er;
      if x == '\\' {
        assert t[2..] == er;
        if er != [] {
          EscapedStart(rest);
          assert t[2] == er[0];
        }
      } else if x == '"' {
        assert t[2..] == er;
      } else if x == '$' {
        assert t[3..] == er;
      } else {
        assert t[1..] == er;
      }
      assert s == [x] + rest;
    }
  }

  /** Two different lines never escape to the same text. */
  lemma EscapedInjective(a: string, b: string)
    requires Escaped(a) == Escaped(b)
    ensures a == b
  {
    UnescapeEscaped(a);
    UnescapeEscaped(b);
  }

  // ---------------------------------------------------------------------------
  // The body field
  // ---------------------------------------------------------------------------

  /** No line holds a newline, as for lines read one by one from a stream. */
  predicate NoNewlines(code: seq<string>)
  {
    forall i :: 0 <= i < |code| ==> '\n' !in code[i]
  }

  /** One array row per line: the escaped line after `lead`, closed by a quote
      and a comma. */
  function QuotedRows(code: seq<string>, lead: string): seq<string>
  {
    seq(|code|, i requires 0 <= i < |code| => lead + Escaped(code[i]) + "\",")
  }

  /** How a row of each array form begins: tab-indented and quoted, with four
      more spaces inside the quotes for code put in a module. */
  const PlainLead: string := "\t\t\t\""
  const ModuleLead: string := "\t\t\t\"    "

  /** The fixed rows that open and close an array body. */
  const BodyOpen: string := "\t\t\"body\": ["
  const BodyClose: string := "\t\t],"

  /** How the body field begins, before its value. */
  const BodyKey: string := "\t\t\"body\": "

  /** The body field: a scalar string for at most one line, an array of rows
      otherwise; either way a field ending in a comma. */
  function CodeToSnippetBody(code: seq<string>): (r: string)
    ensures |r| > |BodyKey| && r[..|BodyKey|] == BodyKey
    ensures r[|BodyKey|] == (if |code| <= 1 then '"' else '[')
    ensures r[|r| - 1] == ','
  {
    if |code| == 0 then "\t\t\"body\": \"\","
    else if |code| == 1 then "\t\t\"body\": \"" + Escaped(code[0]) + "\","
    else BodyOpen + "\n" + Join(QuotedRows(code, PlainLead), "\n") + "\n" + BodyClose
  }

  /** The synthetic rows around the code of a module body. */
  function ModuleHeader(moduleName: string): string
  {
    "\t\t\t\"pub mod " + moduleName + " {\","
  }
  const ModuleEnd: string := "\t\t\t\"}\","

  /** The body field for the code wrapped in a public module named `moduleName`:
      always the array form, whatever the number of lines. */
  function CodeToSnippetBodyAsModule(code: seq<string>, moduleName: string): (r: string)
    ensures |r| > |BodyKey| && r[..|BodyKey|] == BodyKey && r[|BodyKey|] == '['
    ensures r[|r| - 1] == ','
  {
    BodyOpen + "\n" + ModuleHeader(moduleName) + "\n"
    + Join(QuotedRows(code, ModuleLead), "\n")
    + "\n" + ModuleEnd + "\n" + BodyClose
  }

  /** The fixed rows of a body hold no newline when the module name holds none. */
  lemma BodyRowsWithoutNewline(moduleName: string)
    requires '\n' !in moduleName
    ensures '\n' !in BodyOpen && '\n' !in BodyClose && '\n' !in ModuleEnd
    ensures '\n' !in PlainLead && '\n' !in ModuleLead
    ensures '\n' !in ModuleHeader(moduleName)
  {
  }

  /** The escaped rows hold no newline when the lines hold none. */
  lemma RowsWithoutNewline(code: seq<string>, lead: string)
    requires NoNewlines(code) && '\n' !in lead
    ensures forall i :: 0 <= i < |code| ==> '\n' !in QuotedRows(code, lead)[i]
  {
    forall i | 0 <= i < |code|
      ensures '\n' !in QuotedRows(code, lead)[i]
    {
      EscapedKeepsOtherChars(code[i], '\n');
    }
  }

  /** No code at all and a single empty line both give the empty scalar body. */
  lemma BodyEmpty()
    ensures CodeToSnippetBody([]) == "\t\t\"body\": \"\","
    ensures CodeToSnippetBody([""]) == "\t\t\"body\": \"\","
  {
  }

  /** A single line gives a one-row scalar body whose quoted text is the
      escaped line and unescapes back to it. */
  lemma BodySingleLine(line: string)
    requires '\n' !in line
    ensures var r := CodeToSnippetBody([line]);
      && r == "\t\t\"body\": \"" + Escaped(line) + "\","
      && Split(r, '\n') == [r]
      && Unescape(r[|BodyKey| + 1..|r| - 2]) == line
  {
    var r := CodeToSnippetBody([line]);
    EscapedKeepsOtherChars(line, '\n');
    SplitWithoutSep(r, '\n');
    assert r[|BodyKey| + 1..|r| - 2] == Escaped(line);
    UnescapeEscaped(line);
  }

  /** Two or more lines give an array: the opening row, one quoted escaped row
      per line in the order of the lines, and the closing row. */
  lemma BodyArrayRows(code: seq<string>)
    requires |code| >= 2 && NoNewlines(code)
    ensures var rows := Split(CodeToSnippetBody(code), '\n');
      && |rows| == |code| + 2
      && rows[0] == BodyOpen
      && (forall i :: 0 <= i < |code| ==> rows[i + 1] == PlainLead + Escaped(code[i]) + "\",")
      && rows[|code| + 1] == BodyClose
  {
    var rows := QuotedRows(code, PlainLead);
    var joined := Join(rows, "\n");
    var x1 := BodyOpen + "\n" + joined;
    BodyRowsWithoutNewline("");
    assert Split(joined, '\n') == rows by {
      RowsWithoutNewline(code, PlainLead);
      SplitJoin(rows, '\n');
    }
    assert Split(x1, '\n') == [BodyOpen] + rows by {
      SplitRowThen(BodyOpen, joined, '\n');
    }
    assert Split(x1 + "\n" + BodyClose, '\n') == [BodyOpen] + rows + [BodyClose] by {
      SplitThenRow(x1, BodyClose, '\n');
    }
    var all := Split(CodeToSnippetBody(code), '\n');
    forall i | 0 <= i < |code|
      ensures all[i + 1] == PlainLead + Escaped(code[i]) + "\","
    {
      assert all[i + 1] == rows[i];
    }
  }

  /** The plain body is a single row exactly when there is at most one line. */
  lemma BodyRowCount(code: seq<string>)
    requires NoNewlines(code)
    ensures |Split(CodeToSnippetBody(code), '\n')| == if |code| <= 1 then 1 else |code| + 2
  {
    if |code| == 0 {
      SplitWithoutSep(CodeToSnippetBody(code), '\n');
    } else if |code| == 1 {
      BodySingleLine(code[0]);
    } else {
      BodyArrayRows(code);
    }
  }

  /** The rows of a module body: the opening row, the module header with the
      name as given, the rows of the joined code, the module's closing brace
      and the closing row. */
  lemma ModuleBodySplit(code: seq<string>, moduleName: string)
    requires '\n' !in moduleName
    ensures Split(CodeToSnippetBodyAsModule(code, moduleName), '\n')
         == [BodyOpen, ModuleHeader(moduleName)] + Split(Join(QuotedRows(code, ModuleLead), "\n"), '\n') + [ModuleEnd, BodyClose]
  {
    var joined := Join(QuotedRows(code, ModuleLead), "\n");
    var x2 := BodyOpen + "\n" + ModuleHeader(moduleName);
    var x3 := x2 + "\n" + joined;
    var x4 := x3 + "\n" + ModuleEnd;
    BodyRowsWithoutNewline(moduleName);
    assert Split(x2, '\n') == [BodyOpen, ModuleHeader(moduleName)] by {
      SplitRowThen(BodyOpen, ModuleHeader(moduleName), '\n');
      SplitWithoutSep(ModuleHeader(moduleName), '\n');
    }
    assert Split(x3, '\n') == Split(x2, '\n') + Split(joined, '\n') by {
      SplitAround(x2, joined, '\n');
    }
    assert Split(x4, '\n') == Split(x3, '\n') + [ModuleEnd] by {
      SplitThenRow(x3, ModuleEnd, '\n');
    }
    assert Split(x4 + "\n" + BodyClose, '\n') == Split(x4, '\n') + [BodyClose] by {
      SplitThenRow(x4, BodyClose, '\n');
    }
  }

  /** With at least one line, the module body is an array: the opening row, the
      module header with the name as given, one row per line indented by four
      spaces inside the quotes, the module's closing brace and the closing row. */
  lemma ModuleBodyRows(code: seq<string>, moduleName: string)
    requires |code| >= 1 && NoNewlines(code) && '\n' !in moduleName
    ensures var rows := Split(CodeToSnippetBodyAsModule(code, moduleName), '\n');
      && |rows| == |code| + 4
      && rows[0] == BodyOpen
      && rows[1] == "\t\t\t\"pub mod " + moduleName + " {\","
      && (forall i :: 0 <= i < |code| ==> rows[i + 2] == ModuleLead + Escaped(code[i]) + "\",")
      && rows[|code| + 2] == ModuleEnd
      && rows[|code| + 3] == BodyClose
  {
    var rows := QuotedRows(code, ModuleLead);
    ModuleBodySplit(code, moduleName);
    BodyRowsWithoutNewline(moduleName);
    assert Split(Join(rows, "\n"), '\n') == rows by {
      RowsWithoutNewline(code, ModuleLead);
      SplitJoin(rows, '\n');
    }
    var all := Split(CodeToSnippetBodyAsModule(code, moduleName), '\n');
    assert all == [BodyOpen, ModuleHeader(moduleName)] + rows + [ModuleEnd, BodyClose];
    forall i | 0 <= i < |code|
      ensures all[i + 2] == ModuleLead + Escaped(code[i]) + "\","
    {
      assert all[i + 2] == rows[i];
    }
  }

  /** With no lines the module body still has its four fixed rows, with the
      empty join leaving one blank row between header and closing brace. */
  lemma ModuleBodyNoLines(moduleName: string)
    requires '\n' !in moduleName
    ensures Split(CodeToSnippetBodyAsModule([], moduleName), '\n')
         == [BodyOpen, "\t\t\t\"pub mod " + moduleName + " {\",", "", ModuleEnd, BodyClose]
  {
    ModuleBodySplit([], moduleName);
  }

  // ---------------------------------------------------------------------------
  // The snippet entry
  // ---------------------------------------------------------------------------

  /** The rows of an entry other than its body. */
  function NameRow(name: string): string
  {
    "\t\"" + name + "\": {"
  }
  /** The name row begins with a tab and a quote, then the name as it is. */
  lemma NameRowStart(name: string)
    ensures |NameRow(name)| >= 2 + |name| && NameRow(name)[..2] == "\t\"" && NameRow(name)[2..2 + |name|] == name
  {
  }
  function PrefixRow(prefix: string): string
  {
    "\t\t\"prefix\": \"" + prefix + "\","
  }
  function DescriptionRow(description: string): string
  {
    "\t\t\"description\": \"" + description + "\","
  }
  function TemplateRow(template: bool): string
  {
    "\t\t\"isFileTemplate\": " + (if template then "true" else "false") + ","
  }
  const EntryEnd: string := "\t},"

  /** Six rows, one after another, each on a line of its own. */
  function Frame(a: string, b: string, mid: string, d: string, e: string, f: string): (r: string)
    ensures |r| >= |a| + |f| && r[..|a|] == a && r[|r| - |f|..] == f
  {
    a + "\n" + b + "\n" + mid + "\n" + d + "\n" + e + "\n" + f
  }

  /** One snippet entry keyed by `name`: prefix, body, description and the
      file-template flag, with the body wrapped in a module when a module name
      is given. Name, prefix and description are inserted as they are. */
  function CreateSnippet(code: seq<string>, name: string, prefix: string, description: string,
                         template: bool, moduleName: Option<string>): (r: string)
    ensures |r| >= 2 + |name| && r[..2] == "\t\"" && r[2..2 + |name|] == name
    ensures |r| >= |EntryEnd| && r[|r| - |EntryEnd|..] == EntryEnd
  {
    var body := if moduleName.Some? then CodeToSnippetBodyAsModule(code, moduleName.value)
                else CodeToSnippetBody(code);
    var r := Frame(NameRow(name), PrefixRow(prefix), body, DescriptionRow(description), TemplateRow(template), EntryEnd);
    NameRowStart(name);
    SliceOfPrefix(NameRow(name), r, 0, 2);
    SliceOfPrefix(NameRow(name), r, 2, 2 + |name|);
    r
  }

  /** The fixed rows of an entry hold no newline when the texts put into them hold none. */
  lemma EntryRowsWithoutNewline(name: string, prefix: string, description: string, template: bool)
    requires '\n' !in name && '\n' !in prefix && '\n' !in description
    ensures '\n' !in NameRow(name) && '\n' !in PrefixRow(prefix) && '\n' !in DescriptionRow(description)
    ensures '\n' !in TemplateRow(template) && '\n' !in EntryEnd
  {
  }

  /** The rows of an entry: the name row, the prefix row, the rows of the module
      body when a module name is given and of the plain body otherwise, the
      description row, the template row and the closing row. */
  lemma CreateSnippetRows(code: seq<string>, name: string, prefix: string, description: string,
                          template: bool, moduleName: Option<string>)
    requires '\n' !in name && '\n' !in prefix && '\n' !in description
    ensures Split(CreateSnippet(code, name, prefix, description, template, moduleName), '\n')
         == [NameRow(name), PrefixRow(prefix)]
            + Split(if moduleName.Some? then CodeToSnippetBodyAsModule(code, moduleName.value)
                    else CodeToSnippetBody(code), '\n')
            + [DescriptionRow(description), TemplateRow(template), EntryEnd]
  {
    var body := if moduleName.Some? then CodeToSnippetBodyAsModule(code, moduleName.value) else CodeToSnippetBody(code);
    EntryRowsWithoutNewline(name, prefix, description, template);
    SplitFrame(NameRow(name), PrefixRow(prefix), body, DescriptionRow(description), TemplateRow(template), EntryEnd, '\n');
  }
}
