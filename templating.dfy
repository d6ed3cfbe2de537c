/** The comment and naming helpers the code templates call (src/templating.go): the
    doc comment above each generated entity and field, the name of a pgx scan helper
    for a Go type, and `inc`. */
module Templating {
  import opened Wrappers
  import opened Text
  import opened Models

  // ---------------------------------------------------------------- comment blocks

  /** Lines of text, each ended by a newline. */
  function Block(lines: seq<string>): string {
    if lines == [] then "" else Block(lines[..|lines| - 1]) + lines[|lines| - 1] + "\n"
  }

  lemma BlockSnoc(lines: seq<string>, x: string)
    ensures Block(lines + [x]) == Block(lines) + x + "\n"
  {
    assert (lines + [x])[..|lines|] == lines;
  }

  /** A generated doc comment: it ends with a newline and every line is a `//` comment. */
  predicate IsCommentBlock(s: string) {
    var pieces := SplitOn(s, '\n');
    && pieces[|pieces| - 1] == ""
    && forall k :: 0 <= k < |pieces| - 1 ==> HasPrefix(pieces[k], "//")
  }

  predicate NoNewline(s: string) {
    '\n' !in s
  }

  /** Appending a line when a condition holds appends it to the text. */
  lemma BlockStep(txt: string, lines: seq<string>, cond: bool, x: string)
    requires txt == Block(lines)
    ensures (if cond then txt + x + "\n" else txt) == Block(lines + LineIf(cond, x))
  {
    if cond {
      BlockSnoc(lines, x);
    } else {
      assert lines + [] == lines;
    }
  }

  /** Appending two lines appends them to the text. */
  lemma BlockTwoLines(txt: string, lines: seq<string>, x: string, y: string)
    requires txt == Block(lines)
    ensures txt + x + "\n" + y + "\n" == Block(lines + [x, y])
  {
    BlockSnoc(lines, x);
    BlockSnoc(lines + [x], y);
    assert lines + [x] + [y] == lines + [x, y];
  }

  lemma LastSplitsOff(lines: seq<string>)
    requires lines != []
    ensures lines == lines[..|lines| - 1] + [lines[|lines| - 1]]
  {
  }

  /** Lines without newlines, the last one not yet ended, read back as those lines. */
  lemma {:induction false} OpenBlockSplits(init: seq<string>, last: string)
    requires forall k :: 0 <= k < |init| ==> NoNewline(init[k])
    requires NoNewline(last)
    ensures SplitOn(Block(init) + last, '\n') == init + [last]
  {
    SplitWithoutSep(last, '\n');
    if init == [] {
      assert Block(init) + last == last;
    } else {
      var before := init[..|init| - 1];
      var x := Block(before) + init[|init| - 1];
      OpenBlockSplits(before, init[|init| - 1]);
      assert Block(init) + last == x + ['\n'] + last;
      SplitAroundSep(x, last, '\n');
      assert init == before + [init[|init| - 1]];
    }
  }

  /** Lines that hold no newline read back as exactly those lines. */
  lemma BlockSplits(lines: seq<string>)
    requires forall k :: 0 <= k < |lines| ==> NoNewline(lines[k])
    ensures SplitOn(Block(lines), '\n') == lines + [""]
  {
    if lines != [] {
      var init := lines[..|lines| - 1];
      var last := lines[|lines| - 1];
      LastSplitsOff(lines);
      var open := Block(init) + last;
      assert Block(lines) == open + ['\n'];
      OpenBlockSplits(init, last);
      SplitSnocSep(open, '\n');
    }
  }

  /** Lines fit for a comment block: `//` comments without newlines. */
  predicate CommentLines(lines: seq<string>) {
    forall k :: 0 <= k < |lines| ==> NoNewline(lines[k]) && HasPrefix(lines[k], "//")
  }

  lemma CommentLinesAppend(a: seq<string>, b: seq<string>)
    requires CommentLines(a) && CommentLines(b)
    ensures CommentLines(a + b)
  {
  }

  lemma CommentLineOf(prefix: string, rest: string)
    requires HasPrefix(prefix, "//") && NoNewline(prefix) && NoNewline(rest)
    ensures CommentLines([prefix + rest])
  {
    PrefixExtends(prefix, rest, "//");
    NoNewlineConcat(prefix, rest);
  }

  /** Comment lines read back as a comment block. */
  lemma CommentLinesBlock(lines: seq<string>)
    requires CommentLines(lines)
    ensures SplitOn(Block(lines), '\n') == lines + [""]
    ensures IsCommentBlock(Block(lines))
  {
    BlockSplits(lines);
  }

  // ---------------------------------------------------------------- shared pieces

  /** A comment sentence: the text with a full stop added when it lacks one. */
  function Sentence(s: string): string {
    if HasSuffix(s, ".") then s else s + "."
  }

  lemma SentenceEnds(s: string)
    ensures HasSuffix(Sentence(s), ".")
    ensures Sentence(s) == s <==> HasSuffix(s, ".")
    ensures Sentence(Sentence(s)) == Sentence(s)
    ensures NoNewline(s) ==> NoNewline(Sentence(s))
  {
    if !HasSuffix(s, ".") {
      assert (s + ".")[|s|] == '.';
      assert |Sentence(s)| != |s|;
    }
  }

  /** The opening line: `// Code is for <kind> `name``, the display name in quotes when it
      differs from the code name, and a full stop. */
  function NameLine(codeName: string, kind: string, name: string, displayName: string): string {
    "// " + codeName + " is for " + kind + " `" + name + "`"
      + (if codeName != displayName then " (\"" + displayName + "\")" else "") + "."
  }

  /** The line when `cond` holds, and nothing otherwise. */
  function LineIf(cond: bool, line: string): seq<string> {
    if cond then [line] else []
  }

  lemma NoNewlineConcat(a: string, b: string)
    ensures NoNewline(a + b) <==> NoNewline(a) && NoNewline(b)
  {
    assert forall x :: x in a + b <==> x in a || x in b;
  }

  lemma NameLinePrefix(codeName: string, kind: string, name: string, displayName: string)
    ensures HasPrefix(NameLine(codeName, kind, name, displayName), "// " + codeName + " is for " + kind + " `" + name + "`")
  {
    var head := "// " + codeName + " is for " + kind + " `" + name + "`";
    var quoted := if codeName != displayName then " (\"" + displayName + "\")" else "";
    assert NameLine(codeName, kind, name, displayName) == head + (quoted + ".");
    PrefixExtends(head, quoted + ".", head);
  }

  lemma NameLineFits(codeName: string, kind: string, name: string, displayName: string)
    requires NoNewline(codeName) && NoNewline(kind) && NoNewline(name) && NoNewline(displayName)
    ensures CommentLines([NameLine(codeName, kind, name, displayName)])
  {
    var quoted := if codeName != displayName then " (\"" + displayName + "\")" else "";
    var rest := codeName + " is for " + kind + " `" + name + "`" + quoted + ".";
    assert NameLine(codeName, kind, name, displayName) == "// " + rest;
    assert NoNewline(rest);
    CommentLineOf("// ", rest);
  }

  /** The fixed lines are comment lines. */
  lemma FixedLinesFit()
    ensures CommentLines([ReadOnlyLine]) && CommentLines([PrimaryKeyLine]) && CommentLines([FilterLine])
    ensures CommentLines(["//"])
  {
    CommentLineOf("//", " It's READ ONLY.");
    CommentLineOf("//", " It's a PRIMARY KEY.");
    CommentLineOf("//", " It's filterable/sortable.");
    CommentLineOf("//", "");
    assert "//" + "" == "//";
  }

  lemma LineIfFits(cond: bool, line: string)
    requires CommentLines([line])
    ensures CommentLines(LineIf(cond, line))
  {
  }

  // ---------------------------------------------------------------- TableComment

  /** The kind a table's comment names: `table` for a base table, otherwise the
      lower-cased table type. */
  function TableKind(t: Table): string {
    if t.TableType != "BASE TABLE" then Lower(t.TableType) else "table"
  }

  const ReadOnlyLine := "// It's READ ONLY."

  /** `TableComment`, appended piece by piece as the template helper does. */
  function TableComment(t: Table): string {
    var txt := NameLine(t.CodeName, TableKind(t), t.TableName, t.DisplayName) + "\n";
    var txt := if !t.IsUpdatable then txt + ReadOnlyLine + "\n" else txt;
    if |t.Comment| > 0 then txt + ("// " + t.Comment + (if !HasSuffix(t.Comment, ".") then "." else "")) + "\n"
    else txt
  }

  /** The lines of a table's comment: its name line, `// It's READ ONLY.` for a table that
      cannot be updated, and its own comment as a sentence when it has one. */
  function TableCommentLines(t: Table): seq<string> {
    [NameLine(t.CodeName, TableKind(t), t.TableName, t.DisplayName)]
      + LineIf(!t.IsUpdatable, ReadOnlyLine)
      + LineIf(|t.Comment| > 0, "// " + Sentence(t.Comment))
  }

  lemma SentenceLine(s: string)
    ensures "// " + s + (if !HasSuffix(s, ".") then "." else "") == "// " + Sentence(s)
  {
  }

  /** The helper's text is exactly the lines of the comment, each ended by a newline. */
  lemma TableCommentIsBlock(t: Table)
    ensures TableComment(t) == Block(TableCommentLines(t))
  {
    var head := NameLine(t.CodeName, TableKind(t), t.TableName, t.DisplayName);
    var lines := [head] + LineIf(!t.IsUpdatable, ReadOnlyLine);
    BlockSnoc([], head);
    assert Block([head]) == head + "\n";
    if !t.IsUpdatable {
      BlockSnoc([head], ReadOnlyLine);
    } else {
      assert lines == [head];
    }
    if |t.Comment| > 0 {
      SentenceLine(t.Comment);
      BlockSnoc(lines, "// " + Sentence(t.Comment));
    } else {
      assert lines + [] == lines;
    }
  }

  /** The lines of a table's comment: the name line first, the read-only line second
      exactly for a table that cannot be updated, and the comment, ending in a full stop,
      last. */
  lemma TableCommentLinesShape(t: Table)
    ensures var lines := TableCommentLines(t);
      && HasPrefix(lines[0], "// " + t.CodeName + " is for " + TableKind(t) + " `" + t.TableName + "`")
      && |lines| == 1 + |LineIf(!t.IsUpdatable, ReadOnlyLine)| + |LineIf(|t.Comment| > 0, "")|
      && (!t.IsUpdatable ==> lines[1] == ReadOnlyLine)
      && (|t.Comment| > 0 ==> HasSuffix(lines[|lines| - 1], ".") && lines[|lines| - 1] == "// " + Sentence(t.Comment))
  {
    NameLinePrefix(t.CodeName, TableKind(t), t.TableName, t.DisplayName);
    if |t.Comment| > 0 {
      SentenceEnds(t.Comment);
      var last := "// " + Sentence(t.Comment);
      assert last[|last| - 1..] == Sentence(t.Comment)[|Sentence(t.Comment)| - 1..];
    }
  }

  /** A table whose names, type and comment hold no newline has comment lines only. */
  lemma TableLinesFit(t: Table)
    requires NoNewline(t.CodeName) && NoNewline(t.TableName) && NoNewline(t.DisplayName)
    requires NoNewline(t.TableType) && NoNewline(t.Comment)
    ensures CommentLines(TableCommentLines(t))
  {
    assert NoNewline(TableKind(t)) by {
      if t.TableType != "BASE TABLE" {
        assert forall i :: 0 <= i < |t.TableType| ==> LowerChar(t.TableType[i]) != '\n';
      }
    }
    var head := [NameLine(t.CodeName, TableKind(t), t.TableName, t.DisplayName)];
    var ro := LineIf(!t.IsUpdatable, ReadOnlyLine);
    var cm := LineIf(|t.Comment| > 0, "// " + Sentence(t.Comment));
    NameLineFits(t.CodeName, TableKind(t), t.TableName, t.DisplayName);
    FixedLinesFit();
    LineIfFits(!t.IsUpdatable, ReadOnlyLine);
    if |t.Comment| > 0 {
      SentenceEnds(t.Comment);
      CommentLineOf("// ", Sentence(t.Comment));
    }
    CommentLinesAppend(head, ro);
    CommentLinesAppend(head + ro, cm);
  }

  /** When the names, type and comment hold no newline, the table's comment reads back as
      exactly its lines and is a comment block. */
  lemma TableCommentReadsBack(t: Table)
    requires NoNewline(t.CodeName) && NoNewline(t.TableName) && NoNewline(t.DisplayName)
    requires NoNewline(t.TableType) && NoNewline(t.Comment)
    ensures SplitOn(TableComment(t), '\n') == TableCommentLines(t) + [""]
    ensures IsCommentBlock(TableComment(t))
  {
    TableLinesFit(t);
    TableCommentIsBlock(t);
    CommentLinesBlock(TableCommentLines(t));
  }

  // ---------------------------------------------------------------- ColumnComment

  const PrimaryKeyLine := "// It's a PRIMARY KEY."
  const FilterLine := "// It's filterable/sortable."

  function MaxLenLine(maxLen: int): string {
    "// It has a maximum size of " + IntToString(maxLen) + "."
  }

  function DefaultLine(columnDefault: string): string {
    "// Default: " + columnDefault
  }

  /** The lines a column's comment has before its own comment: the name line, then the
      key, filter, size and default lines, each exactly when its flag is set, in that
      order; the default is set off by an empty `//` line. */
  function ColumnHeadLines(c: Column): seq<string>
    requires c.Dereferenceable()
  {
    [NameLine(c.CodeName, "column", c.ColumnName, c.DisplayName)]
      + LineIf(c.IsPrimaryKey, PrimaryKeyLine)
      + LineIf(c.CanFilter, FilterLine)
      + (if c.HasMaxLen then [MaxLenLine(c.MaxLen.value)] else [])
      + (if c.HasDefault then ["//", DefaultLine(c.ColumnDefault.value)] else [])
  }

  /** The lines of a column's comment: its head lines and then, set off by an empty `//`
      line, its own comment as a sentence. */
  function ColumnCommentLines(c: Column): seq<string>
    requires c.Dereferenceable()
  {
    ColumnHeadLines(c) + (if |c.Comment| > 0 then ["//", "// " + Sentence(c.Comment)] else [])
  }

  /** The column's text up to its own comment, appended piece by piece. */
  function ColumnHead(c: Column): string
    requires c.Dereferenceable()
  {
    var txt := NameLine(c.CodeName, "column", c.ColumnName, c.DisplayName) + "\n";
    var txt := if c.IsPrimaryKey then txt + PrimaryKeyLine + "\n" else txt;
    var txt := if c.CanFilter then txt + FilterLine + "\n" else txt;
    var txt := if c.HasMaxLen then txt + MaxLenLine(c.MaxLen.value) + "\n" else txt;
    if c.HasDefault then txt + "//" + "\n" + DefaultLine(c.ColumnDefault.value) + "\n" else txt
  }

  /** `ColumnComment` as written: a comment without a final full stop gets it after the
      comment's newline, on a line of its own. */
  function ColumnCommentAsWritten(c: Column): string
    requires c.Dereferenceable()
  {
    var txt := ColumnHead(c);
    if |c.Comment| > 0 then txt + "//" + "\n" + ("// " + c.Comment) + "\n" + (if !HasSuffix(c.Comment, ".") then "." else "")
    else txt
  }

  /** `ColumnComment` as intended, the way `TableComment` does it: the full stop ends the
      comment's own line. */
  function ColumnComment(c: Column): string
    requires c.Dereferenceable()
  {
    var txt := ColumnHead(c);
    if |c.Comment| > 0 then txt + "//" + "\n" + ("// " + c.Comment + (if !HasSuffix(c.Comment, ".") then "." else "")) + "\n"
    else txt
  }

  lemma ColumnHeadIsBlock(c: Column)
    requires c.Dereferenceable()
    ensures ColumnHead(c) == Block(ColumnHeadLines(c))
  {
    var name := NameLine(c.CodeName, "column", c.ColumnName, c.DisplayName);
    var t0 := name + "\n";
    var t1 := if c.IsPrimaryKey then t0 + PrimaryKeyLine + "\n" else t0;
    var t2 := if c.CanFilter then t1 + FilterLine + "\n" else t1;
    var l0 := [name];
    var l1 := l0 + LineIf(c.IsPrimaryKey, PrimaryKeyLine);
    var l2 := l1 + LineIf(c.CanFilter, FilterLine);
    BlockSnoc([], name);
    assert [] + [name] == l0;
    BlockStep(t0, l0, c.IsPrimaryKey, PrimaryKeyLine);
    BlockStep(t1, l1, c.CanFilter, FilterLine);
    var t3 := if c.HasMaxLen then t2 + MaxLenLine(c.MaxLen.value) + "\n" else t2;
    var l3 := l2 + (if c.HasMaxLen then [MaxLenLine(c.MaxLen.value)] else []);
    if c.HasMaxLen {
      BlockSnoc(l2, MaxLenLine(c.MaxLen.value));
    } else {
      assert l3 == l2;
    }
    assert t3 == Block(l3);
    if c.HasDefault {
      var d := DefaultLine(c.ColumnDefault.value);
      assert ColumnHead(c) == t3 + "//" + "\n" + d + "\n";
      assert ColumnHeadLines(c) == l3 + ["//", d];
      BlockTwoLines(t3, l3, "//", d);
    } else {
      assert ColumnHead(c) == t3;
      assert ColumnHeadLines(c) == l3 + [];
      assert l3 + [] == l3;
    }
  }

  /** The intended helper's text is exactly the lines of the comment, each ended by a
      newline. */
  lemma ColumnCommentIsBlock(c: Column)
    requires c.Dereferenceable()
    ensures ColumnComment(c) == Block(ColumnCommentLines(c))
  {
    ColumnHeadIsBlock(c);
    var lines := ColumnHeadLines(c);
    if |c.Comment| > 0 {
      SentenceLine(c.Comment);
      BlockSnoc(lines, "//");
      BlockSnoc(lines + ["//"], "// " + Sentence(c.Comment));
      assert lines + ["//", "// " + Sentence(c.Comment)] == lines + ["//"] + ["// " + Sentence(c.Comment)];
    } else {
      assert lines + [] == lines;
    }
  }

  lemma IntToStringFits(i: int)
    ensures NoNewline(IntToString(i))
  {
    var d := NatToString(if i < 0 then -i else i);
    assert forall k :: 0 <= k < |d| ==> d[k] != '\n';
    if i < 0 {
      NoNewlineConcat("-", d);
    }
  }

  lemma MaxLenLineFits(maxLen: int)
    ensures CommentLines([MaxLenLine(maxLen)])
  {
    IntToStringFits(maxLen);
    NoNewlineConcat(IntToString(maxLen), ".");
    CommentLineOf("// It has a maximum size of ", IntToString(maxLen) + ".");
    assert MaxLenLine(maxLen) == "// It has a maximum size of " + (IntToString(maxLen) + ".");
  }

  /** A comment set off by an empty `//` line, or the default, fits a comment block. */
  lemma SetOffFits(prefix: string, text: string)
    requires HasPrefix(prefix, "//") && NoNewline(prefix) && NoNewline(text)
    ensures CommentLines(["//", prefix + text])
  {
    FixedLinesFit();
    CommentLineOf(prefix, text);
    CommentLinesAppend(["//"], [prefix + text]);
    assert ["//", prefix + text] == ["//"] + [prefix + text];
  }

  /** A column whose names, default and comment hold no newline has comment lines only. */
  lemma ColumnLinesFit(c: Column)
    requires c.Dereferenceable()
    requires NoNewline(c.CodeName) && NoNewline(c.ColumnName) && NoNewline(c.DisplayName) && NoNewline(c.Comment)
    requires c.HasDefault ==> NoNewline(c.ColumnDefault.value)
    ensures CommentLines(ColumnCommentLines(c))
  {
    var head := [NameLine(c.CodeName, "column", c.ColumnName, c.DisplayName)];
    var pk := LineIf(c.IsPrimaryKey, PrimaryKeyLine);
    var cf := LineIf(c.CanFilter, FilterLine);
    var ml := if c.HasMaxLen then [MaxLenLine(c.MaxLen.value)] else [];
    var df := if c.HasDefault then ["//", DefaultLine(c.ColumnDefault.value)] else [];
    var cm := if |c.Comment| > 0 then ["//", "// " + Sentence(c.Comment)] else [];
    NameLineFits(c.CodeName, "column", c.ColumnName, c.DisplayName);
    FixedLinesFit();
    LineIfFits(c.IsPrimaryKey, PrimaryKeyLine);
    LineIfFits(c.CanFilter, FilterLine);
    if c.HasMaxLen {
      MaxLenLineFits(c.MaxLen.value);
    }
    if c.HasDefault {
      SetOffFits("// Default: ", c.ColumnDefault.value);
    }
    if |c.Comment| > 0 {
      SentenceEnds(c.Comment);
      SetOffFits("// ", Sentence(c.Comment));
    }
    CommentLinesAppend(head, pk);
    CommentLinesAppend(head + pk, cf);
    CommentLinesAppend(head + pk + cf, ml);
    CommentLinesAppend(head + pk + cf + ml, df);
    CommentLinesAppend(head + pk + cf + ml + df, cm);
  }

  /** When the names, default and comment hold no newline, the intended column comment
      reads back as its lines and is a comment block. */
  lemma ColumnCommentReadsBack(c: Column)
    requires c.Dereferenceable()
    requires NoNewline(c.CodeName) && NoNewline(c.ColumnName) && NoNewline(c.DisplayName) && NoNewline(c.Comment)
    requires c.HasDefault ==> NoNewline(c.ColumnDefault.value)
    ensures SplitOn(ColumnComment(c), '\n') == ColumnCommentLines(c) + [""]
    ensures IsCommentBlock(ColumnComment(c))
  {
    ColumnLinesFit(c);
    ColumnCommentIsBlock(c);
    CommentLinesBlock(ColumnCommentLines(c));
  }

  /** The as-written helper differs from the intended one only when the comment lacks a
      full stop, and then its text ends with a line holding only `.`, which is not a
      comment line: it ends with "\n." rather than a newline, so it is no comment block. */
  lemma ColumnCommentStrayStop(c: Column)
    requires c.Dereferenceable()
    ensures |c.Comment| == 0 || HasSuffix(c.Comment, ".") ==> ColumnCommentAsWritten(c) == ColumnComment(c)
    ensures |c.Comment| > 0 && !HasSuffix(c.Comment, ".") ==>
              && HasSuffix(ColumnCommentAsWritten(c), "\n.")
              && !IsCommentBlock(ColumnCommentAsWritten(c))
  {
    var s := ColumnCommentAsWritten(c);
    if |c.Comment| > 0 {
      if HasSuffix(c.Comment, ".") {
        assert s == ColumnHead(c) + "//" + "\n" + ("// " + c.Comment) + "\n" + "";
      } else {
        var a := ColumnHead(c) + "//" + "\n" + ("// " + c.Comment);
        assert s == a + ['\n'] + ".";
        assert s[|s| - 2..] == "\n.";
        SplitAroundSep(a, ".", '\n');
        SplitWithoutSep(".", '\n');
      }
    }
  }

  // ---------------------------------------------------------------- PostgresFuncType

  /** `PostgresFuncType`: the name of the scan helper for a Go type. A name shorter than
      two characters is kept; otherwise a pointer type drops its `*` and gains
      `Nullable`, and the first character is upper-cased. */
  function PostgresFuncType(goType: string): (r: string)
    ensures |goType| < 2 ==> r == goType
    ensures |goType| >= 2 ==>
              && |r| == |goType| + (if HasPrefix(goType, "*") then |"Nullable"| - 1 else 0)
              && !IsLowerLetter(r[0])
  {
    if |goType| < 2 then goType
    else
      var f := if HasPrefix(goType, "*") then goType[1..] + "Nullable" else goType;
      Upper(f[0..1]) + f[1..]
  }

  /** A pointer type's helper is its base type's helper with `Nullable` appended. */
  lemma PostgresFuncTypeNullable(goType: string)
    requires |goType| >= 2 && !HasPrefix(goType, "*")
    ensures PostgresFuncType("*" + goType) == PostgresFuncType(goType) + "Nullable"
  {
    var p := "*" + goType;
    assert HasPrefix(p, "*");
    assert p[1..] == goType;
    var f := goType + "Nullable";
    assert f[0..1] == goType[0..1];
    assert f[1..] == goType[1..] + "Nullable";
  }

  /** The helper of a type that is not a pointer is the type with its first letter
      upper-cased. */
  lemma PostgresFuncTypeCapitalised(goType: string)
    requires |goType| >= 2 && !HasPrefix(goType, "*")
    ensures var r := PostgresFuncType(goType);
      && |r| == |goType| && r[1..] == goType[1..] && LowerChar(r[0]) == LowerChar(goType[0])
  {
    var r := PostgresFuncType(goType);
    assert r == Upper(goType[0..1]) + goType[1..];
  }

  // ---------------------------------------------------------------- inc

  const MinInt := -0x8000_0000_0000_0000
  const MaxInt := 0x7fff_ffff_ffff_ffff

  predicate IsInt(v: int) {
    MinInt <= v <= MaxInt
  }

  /** Go's 64-bit two's complement reading of an integer. */
  function Wrap(x: int): int {
    (x - MinInt) % 0x1_0000_0000_0000_0000 + MinInt
  }

  /** `inc`: one more, wrapping from the largest Go `int` to the smallest. */
  function Inc(value: int): (r: int)
    requires IsInt(value)
    ensures IsInt(r) && r == Wrap(value + 1)
  {
    if value == MaxInt then MinInt else value + 1
  }

  /** `inc` is one-to-one on Go `int`s. */
  lemma IncWraps(value: int, other: int)
    requires IsInt(value) && IsInt(other)
    ensures Inc(value) == Inc(other) ==> value == other
  {
  }
}
