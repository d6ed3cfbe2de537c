/** Naming transform, Postgres-to-Go type mapping and the column/placeholder list
    builders handed to the templates (src/mapping.go). */
module Mapping {
  import opened Wrappers
  import opened Text
  import opened Models

  // ================================================================ naming transform

  /** The words of a lower-cased identifier: the non-empty runs between underscores.
      Repeated, leading and trailing underscores make no empty words. */
  function Words(s: string): seq<string>
  {
    NonEmpty(SplitOn(s, '_'))
  }

  function NonEmpty(xs: seq<string>): (r: seq<string>)
    ensures forall k :: 0 <= k < |r| ==> r[k] != []
  {
    if xs == [] then []
    else NonEmpty(xs[..|xs| - 1]) + (if xs[|xs| - 1] == [] then [] else [xs[|xs| - 1]])
  }

  lemma NonEmptySnoc(xs: seq<string>, x: string)
    ensures NonEmpty(xs + [x]) == NonEmpty(xs) + (if x == [] then [] else [x])
  {
    assert (xs + [x])[..|xs|] == xs;
  }

  /** A word with its first letter upper-cased. */
  function Capitalised(w: string): (r: string)
    ensures |r| == |w|
  {
    if w == [] then [] else [UpperChar(w[0])] + w[1..]
  }

  function Caps(ws: seq<string>): (r: seq<string>)
    ensures |r| == |ws|
    ensures forall k :: 0 <= k < |ws| ==> r[k] == Capitalised(ws[k])
  {
    seq(|ws|, k requires 0 <= k < |ws| => Capitalised(ws[k]))
  }

  lemma CapsSnoc(ws: seq<string>, w: string)
    ensures Caps(ws + [w]) == Caps(ws) + [Capitalised(w)]
  {
  }

  /** The text `toProper` accumulates before trimming: every word capitalised, each one
      preceded by a space when the name is for display. */
  function Rendered(ws: seq<string>, forDisplay: bool): string
  {
    if ws == [] then []
    else Rendered(ws[..|ws| - 1], forDisplay) + (if forDisplay then " " else "") + Capitalised(ws[|ws| - 1])
  }

  lemma RenderedSnoc(ws: seq<string>, w: string, forDisplay: bool)
    ensures Rendered(ws + [w], forDisplay) == Rendered(ws, forDisplay) + (if forDisplay then " " else "") + Capitalised(w)
  {
    assert (ws + [w])[..|ws|] == ws;
  }

  /** What `toProper(value, forDisplay)` returns: the capitalised words of the lower-cased
      value, trimmed, with anything reading "id" in any case spelled "Id". */
  function ProperName(value: string, forDisplay: bool): (r: string)
    ensures value == [] ==> r == []
    ensures r == [] || (!IsSpace(r[0]) && !IsSpace(r[|r| - 1]))
    ensures Lower(r) == "id" ==> r == "Id"
  {
    if value == [] then []
    else
      var t := TrimSpace(Rendered(Words(Lower(value)), forDisplay));
      if Lower(t) == "id" then "Id" else t
  }

  /** The piece after the last underscore read so far: empty exactly when the next
      letter starts a new word. */
  function LastPiece(p: string): string
  {
    var r := SplitOn(p, '_');
    r[|r| - 1]
  }

  /** An underscore ends the current word and adds nothing. */
  lemma ProperStepUnderscore(p: string, forDisplay: bool)
    ensures Rendered(Words(p + ['_']), forDisplay) == Rendered(Words(p), forDisplay)
    ensures LastPiece(p + ['_']) == []
  {
    var r := SplitOn(p, '_');
    SplitSnocSep(p, '_');
    NonEmptySnoc(r, []);
    assert Words(p + ['_']) == NonEmpty(r + [[]]) == Words(p);
  }

  /** A letter after an underscore (or at the start) opens a new, capitalised word. */
  lemma ProperStepStart(p: string, ch: char, forDisplay: bool)
    requires ch != '_' && LastPiece(p) == []
    ensures Rendered(Words(p + [ch]), forDisplay)
      == Rendered(Words(p), forDisplay) + (if forDisplay then " " else "") + [UpperChar(ch)]
    ensures LastPiece(p + [ch]) != []
  {
    var r := SplitOn(p, '_');
    var init := r[..|r| - 1];
    assert r == init + [[]];
    NonEmptySnoc(init, []);
    SplitSnocChar(p, ch, '_');
    assert [] + [ch] == [ch];
    assert SplitOn(p + [ch], '_') == init + [[ch]];
    NonEmptySnoc(init, [ch]);
    assert Words(p) == NonEmpty(init);
    assert Words(p + [ch]) == NonEmpty(init) + [[ch]];
    RenderedSnoc(NonEmpty(init), [ch], forDisplay);
    assert Capitalised([ch]) == [UpperChar(ch)];
  }

  /** A letter inside a word is appended as it is. */
  lemma ProperStepContinue(p: string, ch: char, forDisplay: bool)
    requires ch != '_' && LastPiece(p) != []
    ensures Rendered(Words(p + [ch]), forDisplay) == Rendered(Words(p), forDisplay) + [ch]
    ensures LastPiece(p + [ch]) != []
  {
    var r := SplitOn(p, '_');
    var init, last := r[..|r| - 1], r[|r| - 1];
    assert r == init + [last];
    SplitSnocChar(p, ch, '_');
    assert SplitOn(p + [ch], '_') == init + [last + [ch]];
    NonEmptySnoc(init, last);
    NonEmptySnoc(init, last + [ch]);
    var ws := NonEmpty(init);
    var space: string := if forDisplay then " " else "";
    RenderedSnoc(ws, last + [ch], forDisplay);
    RenderedSnoc(ws, last, forDisplay);
    CapitalisedSnoc(last, ch);
    AppendAssoc(Rendered(ws, forDisplay) + space, Capitalised(last), [ch]);
  }

  lemma CapitalisedSnoc(w: string, c: char)
    requires w != []
    ensures Capitalised(w + [c]) == Capitalised(w) + [c]
  {
    assert (w + [c])[0] == w[0];
    assert (w + [c])[1..] == w[1..] + [c];
    AppendAssoc([UpperChar(w[0])], w[1..], [c]);
  }

  /** `toProper`: the loop over the lower-cased value that starts a capitalised word
      after every underscore. */
  method ToProper(value: string, forDisplay: bool) returns (s: string)
    ensures s == ProperName(value, forDisplay)
  {
    if |value| == 0 {
      return "";
    }
    s := "";
    var needsUpper := true;
    var lv := Lower(value);
    for i := 0 to |lv|
      invariant s == Rendered(Words(lv[..i]), forDisplay)
      invariant needsUpper <==> LastPiece(lv[..i]) == []
    {
      var ch := lv[i];
      ghost var p := lv[..i];
      PrefixSnoc(lv, i);
      if ch == '_' {
        ProperStepUnderscore(p, forDisplay);
        needsUpper := true;
      } else {
        if needsUpper {
          ProperStepStart(p, ch, forDisplay);
          UpperSingle(ch);
          needsUpper := false;
          if forDisplay {
            s := s + " ";
          } else {
            assert s + "" == s;
          }
          s := s + Upper([ch]);
        } else {
          ProperStepContinue(p, ch, forDisplay);
          s := s + [ch];
        }
      }
    }
    assert lv[..|lv|] == lv;
    ghost var t := TrimSpace(Rendered(Words(Lower(value)), forDisplay));
    s := TrimSpace(s);
    assert s == t;
    if Lower(s) == "id" {
      s := "Id";
    }
  }

  // ---------------------------------------------------------------- words

  lemma WordsSnocUnderscore(p: string)
    ensures Words(p + ['_']) == Words(p)
  {
    SplitSnocSep(p, '_');
    NonEmptySnoc(SplitOn(p, '_'), []);
  }

  lemma WordsSnocLetter(p: string, c: char)
    requires c != '_'
    ensures Words(p + [c]) != []
  {
    var r := SplitOn(p, '_');
    SplitSnocChar(p, c, '_');
    NonEmptySnoc(r[..|r| - 1], r[|r| - 1] + [c]);
  }

  /** An identifier has no words exactly when it is made of underscores only. */
  lemma {:induction false} WordsEmptyIff(s: string)
    ensures Words(s) == [] <==> forall i :: 0 <= i < |s| ==> s[i] == '_'
  {
    if s != [] {
      var p, c := s[..|s| - 1], s[|s| - 1];
      assert s == p + [c];
      WordsEmptyIff(p);
      if c == '_' {
        WordsSnocUnderscore(p);
      } else {
        WordsSnocLetter(p, c);
      }
    }
  }

  lemma {:induction false} SplitPieceChars(s: string, sep: char)
    ensures forall k, j :: 0 <= k < |SplitOn(s, sep)| && 0 <= j < |SplitOn(s, sep)[k]| ==>
              SplitOn(s, sep)[k][j] in s && SplitOn(s, sep)[k][j] != sep
  {
    if s != [] {
      SplitPieceChars(s[1..], sep);
      assert forall x :: x in s[1..] ==> x in s;
      assert s[0] in s;
    }
  }

  lemma {:induction false} NonEmptyFrom(xs: seq<string>)
    ensures forall k :: 0 <= k < |NonEmpty(xs)| ==> NonEmpty(xs)[k] in xs
  {
    if xs != [] {
      var init := xs[..|xs| - 1];
      NonEmptyFrom(init);
      assert forall x :: x in init ==> x in xs;
    }
  }

  /** Every word is non-empty, holds no underscore, and is made of the identifier's characters. */
  lemma WordChars(s: string)
    ensures forall k :: 0 <= k < |Words(s)| ==> Words(s)[k] != [] && '_' !in Words(s)[k]
    ensures forall k, j :: 0 <= k < |Words(s)| && 0 <= j < |Words(s)[k]| ==> Words(s)[k][j] in s
  {
    var r := SplitOn(s, '_');
    SplitPieceChars(s, '_');
    NonEmptyFrom(r);
    forall k, j | 0 <= k < |Words(s)| && 0 <= j < |Words(s)[k]|
      ensures Words(s)[k][j] in s && Words(s)[k][j] != '_'
    {
      var m :| 0 <= m < |r| && r[m] == Words(s)[k];
    }
  }

  /** The words of a lower-cased, white-space-free identifier are lower-cased and white-space-free. */
  lemma LoweredWords(v: string)
    requires NoSpace(v)
    ensures forall k :: 0 <= k < |Words(Lower(v))| ==>
              IsLowered(Words(Lower(v))[k]) && NoSpace(Words(Lower(v))[k]) && Words(Lower(v))[k] != []
  {
    var lv := Lower(v);
    WordChars(lv);
    forall k, j | 0 <= k < |Words(lv)| && 0 <= j < |Words(lv)[k]|
      ensures !IsUpperLetter(Words(lv)[k][j]) && !IsSpace(Words(lv)[k][j])
    {
      var i :| 0 <= i < |lv| && lv[i] == Words(lv)[k][j];
    }
  }

  // ---------------------------------------------------------------- rendering words

  lemma {:induction false} RenderedCode(ws: seq<string>)
    ensures Rendered(ws, false) == Concat(Caps(ws))
  {
    if ws != [] {
      var init, w := ws[..|ws| - 1], ws[|ws| - 1];
      var cw := Capitalised(w);
      assert ws == init + [w];
      RenderedCode(init);
      var r := Rendered(init, false);
      assert Rendered(ws, false) == r + "" + cw;
      assert r + "" == r;
      CapsSnoc(init, w);
      ConcatSnoc(Caps(init), cw);
    }
  }

  lemma {:induction false} RenderedDisplay(ws: seq<string>)
    requires ws != []
    ensures Rendered(ws, true) == " " + Join(Caps(ws), " ")
  {
    var init, cw := ws[..|ws| - 1], Capitalised(ws[|ws| - 1]);
    assert Caps(ws) == Caps(init) + [cw];
    if init == [] {
      assert Rendered(ws, true) == [] + " " + cw;
    } else {
      RenderedDisplay(init);
      var j := Join(Caps(init), " ");
      assert Join(Caps(ws), " ") == j + " " + cw by {
        JoinSnoc(Caps(init), cw, " ");
      }
      assert Rendered(ws, true) == (" " + j) + " " + cw;
      AppendAssoc(" " + j, " ", cw);
      AppendAssoc(" ", j, " " + cw);
      AppendAssoc(j, " ", cw);
    }
  }

  lemma LowerCapitalised(w: string)
    requires IsLowered(w)
    ensures Lower(Capitalised(w)) == w
  {
    if w != [] {
      assert Capitalised(w) == [UpperChar(w[0])] + w[1..];
      LowerConcat([UpperChar(w[0])], w[1..]);
      LowerOfLowered(w[1..]);
      assert [w[0]] + w[1..] == w;
    }
  }

  lemma CapitalisedNoSpace(w: string)
    requires NoSpace(w)
    ensures NoSpace(Capitalised(w))
  {
  }

  lemma {:induction false} LowerConcatCaps(ws: seq<string>)
    requires forall k :: 0 <= k < |ws| ==> IsLowered(ws[k])
    ensures Lower(Concat(Caps(ws))) == Concat(ws)
  {
    if ws != [] {
      var init, w := ws[..|ws| - 1], ws[|ws| - 1];
      assert ws == init + [w];
      LowerConcatCaps(init);
      var cw := Capitalised(w);
      assert Caps(ws) == Caps(init) + [cw];
      ConcatSnoc(Caps(init), cw);
      ConcatSnoc(init, w);
      LowerConcat(Concat(Caps(init)), cw);
      LowerCapitalised(w);
    }
  }

  lemma {:induction false} LowerJoinCaps(ws: seq<string>)
    requires forall k :: 0 <= k < |ws| ==> IsLowered(ws[k])
    ensures Lower(Join(Caps(ws), " ")) == Join(ws, " ")
  {
    if |ws| == 1 {
      LowerCapitalised(ws[0]);
    } else if |ws| > 1 {
      var init, w := ws[..|ws| - 1], ws[|ws| - 1];
      assert ws == init + [w];
      LowerJoinCaps(init);
      var a, cw := Join(Caps(init), " "), Capitalised(w);
      assert Caps(ws) == Caps(init) + [cw];
      JoinSnoc(Caps(init), cw, " ");
      JoinSnoc(init, w, " ");
      LowerConcat(a + " ", cw);
      LowerConcat(a, " ");
      assert Lower(" ") == " ";
      LowerCapitalised(w);
    }
  }

  lemma {:induction false} ConcatNoSpace(xs: seq<string>)
    requires forall k :: 0 <= k < |xs| ==> NoSpace(xs[k])
    ensures NoSpace(Concat(xs))
  {
    if xs != [] {
      ConcatNoSpace(xs[..|xs| - 1]);
    }
  }

  lemma {:induction false} JoinEnds(xs: seq<string>, sep: string)
    requires xs != [] && xs[0] != [] && xs[|xs| - 1] != []
    ensures var j := Join(xs, sep); |j| >= 1 && j[0] == xs[0][0] && j[|j| - 1] == xs[|xs| - 1][|xs[|xs| - 1]| - 1]
  {
    if |xs| > 1 {
      var init := xs[..|xs| - 1];
      if |init| > 1 {
        assert init[|init| - 1] == xs[|xs| - 2];
      }
      if xs[|xs| - 2] != [] {
        JoinEnds(init, sep);
      } else {
        JoinFirst(init, sep);
      }
    }
  }

  lemma {:induction false} JoinFirst(xs: seq<string>, sep: string)
    requires xs != [] && xs[0] != []
    ensures |Join(xs, sep)| >= 1 && Join(xs, sep)[0] == xs[0][0]
  {
    if |xs| > 1 {
      JoinFirst(xs[..|xs| - 1], sep);
    }
  }

  // ---------------------------------------------------------------- the derived names

  /** For a white-space-free identifier, the code name is the concatenation of its
      capitalised words, except that one reading "id" is spelled "Id"
      (`email_address` gives `EmailAddress`, `AccountID` gives `Accountid`). */
  lemma CodeNameOfWords(v: string)
    requires v != [] && NoSpace(v)
    ensures var ws := Words(Lower(v));
            ProperName(v, false) == if Concat(ws) == "id" then "Id" else Concat(Caps(ws))
  {
    var ws := Words(Lower(v));
    var r := Concat(Caps(ws));
    assert Rendered(ws, false) == r by {
      RenderedCode(ws);
    }
    assert TrimSpace(r) == r by {
      LoweredWords(v);
      forall k | 0 <= k < |ws| ensures NoSpace(Caps(ws)[k]) {
        CapitalisedNoSpace(ws[k]);
      }
      ConcatNoSpace(Caps(ws));
      TrimSpaceUnchanged(r);
    }
    assert Lower(r) == Concat(ws) by {
      LoweredWords(v);
      LowerConcatCaps(ws);
    }
  }

  /** For a white-space-free identifier, the display name is its capitalised words
      separated by exactly one space, with no space before or after
      (`email_address` gives `Email Address`). */
  lemma DisplayNameOfWords(v: string)
    requires v != [] && NoSpace(v)
    ensures ProperName(v, true) == Join(Caps(Words(Lower(v))), " ")
  {
    var ws := Words(Lower(v));
    if ws != [] {
      var j := Join(Caps(ws), " ");
      assert Rendered(ws, true) == " " + j by {
        RenderedDisplay(ws);
      }
      assert TrimSpace(" " + j) == j by {
        LoweredWords(v);
        var first, last := ws[0], ws[|ws| - 1];
        assert NoSpace(first) && NoSpace(last) && first != [] && last != [];
        CapitalisedNoSpace(first);
        CapitalisedNoSpace(last);
        JoinEnds(Caps(ws), " ");
        assert !IsSpace(j[0]) && !IsSpace(j[|j| - 1]);
        TrimSpaceLeadingBlank(j);
      }
      assert Lower(j) == "id" ==> j == "Id" by {
        LoweredWords(v);
        DisplayIdCase(ws);
      }
      var t := TrimSpace(Rendered(ws, true));
      assert t == j;
      assert ProperName(v, true) == if Lower(t) == "id" then "Id" else t;
    } else {
      assert Rendered(ws, true) == [];
      assert TrimSpace([]) == [];
      assert Lower([]) == [];
    }
  }

  lemma DisplayIdCase(ws: seq<string>)
    requires ws != []
    requires forall k :: 0 <= k < |ws| ==> IsLowered(ws[k])
    ensures Lower(Join(Caps(ws), " ")) == "id" ==> Join(Caps(ws), " ") == "Id"
  {
    LowerJoinCaps(ws);
    JoinOfManyHasSep(ws, ' ');
    if Join(ws, " ") == "id" {
      assert ' ' !in Join(ws, " ");
      assert |ws| == 1;
      LowerCapitalised(ws[0]);
      assert ws[0] == "id";
      assert Capitalised("id") == "Id";
    }
  }

  /** `toJsonName`: the code name with its first character lower-cased. Go slices
      `s[:1]` of an empty code name and panics: `None` stands for that fault. */
  function ToJsonName(value: string): (r: Option<string>)
    ensures r.None? <==> value != [] && ProperName(value, false) == []
    ensures value == [] ==> r == Some([])
    ensures value != [] && r.Some? ==>
              var code := ProperName(value, false);
              && |r.value| == |code| && r.value[1..] == code[1..]
              && r.value[0] == LowerChar(code[0])
  {
    if value == [] then Some([])
    else
      var s := ProperName(value, false);
      if s == [] then None else Some(Lower(s[..1]) + s[1..])
  }

  /** `toSlug`: the display name lower-cased, spaces turned into hyphens. */
  function ToSlug(value: string): (r: string)
    ensures |r| == |ProperName(value, true)|
    ensures IsLowered(r) && ' ' !in r
  {
    if value == [] then []
    else ReplaceChar(Lower(ProperName(value, true)), ' ', '-')
  }

  /** For a white-space-free identifier the slug is its lower-case words joined by
      hyphens (`display_name` gives `display-name`). */
  lemma SlugOfWords(v: string)
    requires NoSpace(v)
    ensures ToSlug(v) == Join(Words(Lower(v)), "-")
  {
    var ws := Words(Lower(v));
    if v != [] {
      DisplayNameOfWords(v);
      LoweredWords(v);
      LowerJoinCaps(ws);
      forall k | 0 <= k < |ws| ensures ' ' !in ws[k] {
        NoSpaceLacksBlank(ws[k]);
      }
      ReplaceJoin(ws, ' ', '-');
    } else {
      assert Lower(v) == [];
      assert SplitOn([], '_') == [[]];
    }
  }

  /** Lower-casing the first letter of a capitalised lower-case word gives the word back. */
  lemma UncapitaliseFirst(w: string, tail: string)
    requires w != [] && IsLowered(w)
    ensures var c := Capitalised(w) + tail; Lower(c[..1]) + c[1..] == w + tail
  {
    var c := Capitalised(w) + tail;
    var rest := w[1..] + tail;
    assert c == [UpperChar(w[0])] + rest;
    assert c[..1] == [UpperChar(w[0])];
    assert c[1..] == rest;
    assert LowerChar(UpperChar(w[0])) == w[0];
    assert Lower(c[..1]) == [w[0]];
    assert w + tail == [w[0]] + rest;
  }

  /** For a non-empty white-space-free identifier, the JSON name is the camel-case form:
      the first word as it is, the others capitalised (`display_name` gives
      `displayName`); with no words at all it faults. */
  lemma JsonNameOfWords(v: string)
    requires v != [] && NoSpace(v)
    ensures var ws := Words(Lower(v));
            ToJsonName(v) == if ws == [] then None
                             else if Concat(ws) == "id" then Some("id")
                             else Some(Concat([ws[0]] + Caps(ws[1..])))
  {
    var ws := Words(Lower(v));
    CodeNameOfWords(v);
    LoweredWords(v);
    CamelOfCode(ws, ProperName(v, false));
  }

  /** The camel-case step of `toJsonName`, on the code name of words `ws`. */
  lemma CamelOfCode(ws: seq<string>, code: string)
    requires forall k :: 0 <= k < |ws| ==> IsLowered(ws[k]) && ws[k] != []
    requires code == if Concat(ws) == "id" then "Id" else Concat(Caps(ws))
    ensures (if code == [] then None else Some(Lower(code[..1]) + code[1..]))
            == if ws == [] then None
               else if Concat(ws) == "id" then Some("id")
               else Some(Concat([ws[0]] + Caps(ws[1..])))
  {
    if ws == [] {
      assert Caps(ws) == [];
    } else if Concat(ws) == "id" {
      IdUncapitalised();
    } else {
      CamelOfWords(ws);
    }
  }

  lemma IdUncapitalised()
    ensures var code := "Id"; Lower(code[..1]) + code[1..] == "id"
  {
    var code := "Id";
    assert code[..1] == ['I'] && code[1..] == ['d'];
    assert Lower(['I']) == ['i'];
  }

  lemma CamelOfWords(ws: seq<string>)
    requires ws != [] && IsLowered(ws[0]) && ws[0] != []
    ensures var code := Concat(Caps(ws));
            code != [] && Lower(code[..1]) + code[1..] == Concat([ws[0]] + Caps(ws[1..]))
  {
    var tail := Caps(ws[1..]);
    var rest := Concat(tail);
    var cw := Capitalised(ws[0]);
    assert Caps(ws) == [cw] + tail;
    ConcatCons(cw, tail);
    ConcatCons(ws[0], tail);
    UncapitaliseFirst(ws[0], rest);
  }

  lemma LowerUnderscores(v: string)
    ensures (forall i :: 0 <= i < |v| ==> Lower(v)[i] == '_') <==> (forall i :: 0 <= i < |v| ==> v[i] == '_')
  {
    assert forall i :: 0 <= i < |v| ==> (Lower(v)[i] == '_' <==> v[i] == '_');
  }

  /** `toJsonName` faults exactly on a non-empty identifier made only of underscores. */
  lemma JsonNameFaultsIff(v: string)
    requires NoSpace(v)
    ensures ToJsonName(v) == None <==> v != [] && forall i :: 0 <= i < |v| ==> v[i] == '_'
  {
    if v != [] {
      JsonNameNoneIff(v);
      WordsEmptyIff(Lower(v));
      LowerUnderscores(v);
    }
  }

  lemma JsonNameNoneIff(v: string)
    requires v != [] && NoSpace(v)
    ensures ToJsonName(v) == None <==> Words(Lower(v)) == []
  {
    var ws := Words(Lower(v));
    JsonNameOfWords(v);
    if ws != [] {
      assert ToJsonName(v).Some?;
    }
  }

  // ================================================================ type mapping

  const CardinalTypes: set<string> :=
    {"smallint", "smallserial", "integer", "serial", "bigint", "bigserial"}

  const TemporalTypes: set<string> :=
    {"timestamp", "timestamptz", "timestamp with time zone", "timestamp without time zone",
     "date", "time", "time with time zone", "time without time zone"}

  /** The switch of `mapPostgresTypeToGo` as a table: every accepted Postgres type name,
      in lower case, with the Go type it becomes. */
  const GoTypeOf: map<string, string> :=
    map["smallint" := "int16", "smallserial" := "int16",
        "integer" := "int", "serial" := "int",
        "bigint" := "int64", "bigserial" := "int64",
        "decimal" := "float64", "numeric" := "float64", "money" := "float64",
        "real" := "float64",
        "double precision" := "float64",
        "bytea" := "[]byte",
        "character varying" := "string", "varchar" := "string", "character" := "string",
        "char" := "string", "text" := "string",
        "boolean" := "bool",
        "timestamp" := "*time.Time", "timestamptz" := "*time.Time",
        "timestamp with time zone" := "*time.Time", "timestamp without time zone" := "*time.Time",
        "date" := "*time.Time", "time" := "*time.Time",
        "time with time zone" := "*time.Time", "time without time zone" := "*time.Time",
        "interval" := "*time.Duration",
        "uuid" := "Guid",
        "json" := "string", "jsonb" := "string",
        "xml" := "string"]

  /** Every Go type the generator emits for a column before nullability. */
  const GoTypes: set<string> :=
    {"int16", "int", "int64", "float64", "[]byte", "string", "bool", "*time.Time", "*time.Duration", "Guid"}

  const BitMessage: string := "Unsupported column type 'bit' - use 'boolean' instead."

  /** `mapPostgresTypeToGo`: a case-insensitive lookup; `bit` and every unlisted name are
      faults (Go panics), never defaulted. */
  function MapPostgresTypeToGo(postgresDataType: string): (r: Result<string>)
    ensures r.Ok? <==> Lower(postgresDataType) in GoTypeOf
    ensures r.Err? ==> r.message == BitMessage || r.message == "Unsupported Postgres data type: " + postgresDataType
  {
    var t := Lower(postgresDataType);
    if t in GoTypeOf then Ok(GoTypeOf[t])
    else if t == "bit" then Err(BitMessage)
    else Err("Unsupported Postgres data type: " + postgresDataType)
  }

  /** `bit` is refused with its own advice; every other unsupported name is refused
      with the name as given. */
  lemma MappingFaults(postgresDataType: string)
    ensures Lower(postgresDataType) == "bit" ==> MapPostgresTypeToGo(postgresDataType) == Err(BitMessage)
    ensures Lower(postgresDataType) !in GoTypeOf && Lower(postgresDataType) != "bit" ==>
              MapPostgresTypeToGo(postgresDataType) == Err("Unsupported Postgres data type: " + postgresDataType)
  {
  }

  /** Every mapped type is one of the Go types the emitters know. */
  lemma MappingYieldsGoType(postgresDataType: string)
    ensures MapPostgresTypeToGo(postgresDataType).Ok? ==> MapPostgresTypeToGo(postgresDataType).value in GoTypes
  {
  }

  /** Every date and time kind maps to a time pointer. */
  lemma TemporalMapsToTime(postgresDataType: string)
    requires Lower(postgresDataType) in TemporalTypes
    ensures MapPostgresTypeToGo(postgresDataType) == Ok("*time.Time")
  {
  }

  /** The lookup ignores case: a name and its lower-case form map alike. */
  lemma MappingIgnoresCase(postgresDataType: string)
    ensures MapPostgresTypeToGo(Lower(postgresDataType)).Ok? == MapPostgresTypeToGo(postgresDataType).Ok?
    ensures MapPostgresTypeToGo(postgresDataType).Ok? ==>
              MapPostgresTypeToGo(Lower(postgresDataType)) == MapPostgresTypeToGo(postgresDataType)
  {
    LowerIsLowered(postgresDataType);
  }

  /** `isPostgresTypeCardinal`: the auto-incrementing integer kinds. */
  function IsPostgresTypeCardinal(postgresDataType: string): (r: bool)
    ensures r <==> Lower(postgresDataType) in CardinalTypes
  {
    var t := Lower(postgresDataType);
    t == "smallint" || t == "smallserial" || t == "integer" || t == "serial" || t == "bigint" || t == "bigserial"
  }

  /** Every cardinal type maps to one of Go's integer types. */
  lemma CardinalMapsToInteger(postgresDataType: string)
    requires IsPostgresTypeCardinal(postgresDataType)
    ensures MapPostgresTypeToGo(postgresDataType) in {Ok("int16"), Ok("int"), Ok("int64")}
  {
    CardinalEntry(Lower(postgresDataType));
  }

  lemma CardinalEntry(t: string)
    requires t in CardinalTypes
    ensures t in GoTypeOf && (GoTypeOf[t] == "int16" || GoTypeOf[t] == "int" || GoTypeOf[t] == "int64")
  {
  }

  /** The nullability wrapper: a `*` is added when the column is nullable and the type
      is not already a pointer. */
  function NullableType(goType: string, isNullable: bool): (r: string)
    ensures HasPrefix(r, "*") <==> HasPrefix(goType, "*") || isNullable
    ensures !isNullable || HasPrefix(goType, "*") ==> r == goType
  {
    if isNullable && !HasPrefix(goType, "*") then "*" + goType else goType
  }

  /** Wrapping is idempotent. */
  lemma NullableTypeIdempotent(goType: string, isNullable: bool)
    ensures NullableType(NullableType(goType, isNullable), isNullable) == NullableType(goType, isNullable)
  {
  }

  /** `mapPostgresTypeToGoWithNullable`: the plain mapping, made a pointer for a
      nullable column; faults pass through unchanged. */
  function MapPostgresTypeToGoWithNullable(postgresDataType: string, isNullable: bool): (r: Result<string>)
    ensures r.Err? ==> r == MapPostgresTypeToGo(postgresDataType)
    ensures r.Ok? ==> MapPostgresTypeToGo(postgresDataType).Ok?
    ensures r.Ok? ==> (HasPrefix(r.value, "*") <==> isNullable || HasPrefix(MapPostgresTypeToGo(postgresDataType).value, "*"))
    ensures r.Ok? ==> r.value == MapPostgresTypeToGo(postgresDataType).value
                      || r.value == "*" + MapPostgresTypeToGo(postgresDataType).value
    ensures !isNullable ==> r == MapPostgresTypeToGo(postgresDataType)
  {
    var base := MapPostgresTypeToGo(postgresDataType);
    if base.Err? then base else Ok(NullableType(base.value, isNullable))
  }

  /** Temporal and interval columns are pointers whatever their nullability. */
  lemma TemporalAlwaysPointer(postgresDataType: string, isNullable: bool)
    requires Lower(postgresDataType) in TemporalTypes + {"interval"}
    ensures MapPostgresTypeToGoWithNullable(postgresDataType, isNullable).Ok?
    ensures var r := MapPostgresTypeToGoWithNullable(postgresDataType, isNullable).value;
            HasPrefix(r, "*") && r == MapPostgresTypeToGo(postgresDataType).value
  {
    var base := MapPostgresTypeToGo(postgresDataType);
    assert base == Ok("*time.Time") || base == Ok("*time.Duration") by {
      if Lower(postgresDataType) in TemporalTypes {
        TemporalMapsToTime(postgresDataType);
      }
    }
    assert HasPrefix(base.value, "*");
  }

  // ================================================================ CSV list builders

  /** The text every list builder accumulates: each item is appended, preceded by a
      comma only once something has been written. */
  function CsvJoin(items: seq<string>): string
  {
    if items == [] then []
    else
      var s := CsvJoin(items[..|items| - 1]);
      (if |s| > 0 then s + "," else s) + items[|items| - 1]
  }

  lemma CsvJoinSnoc(items: seq<string>, x: string)
    ensures CsvJoin(items + [x]) == (if |CsvJoin(items)| > 0 then CsvJoin(items) + "," else CsvJoin(items)) + x
  {
    assert (items + [x])[..|items|] == items;
  }

  /** With no empty item the accumulated text is the plain comma join. */
  lemma {:induction false} CsvJoinIsJoin(items: seq<string>)
    requires forall k :: 0 <= k < |items| ==> items[k] != []
    ensures CsvJoin(items) == Join(items, ",")
  {
    if |items| > 1 {
      var init := items[..|items| - 1];
      CsvJoinIsJoin(init);
      assert |Join(init, ",")| > 0 by {
        JoinFirst(init, ",");
      }
    }
  }

  /** The text is empty exactly when every item is. */
  lemma {:induction false} CsvJoinEmptyIff(items: seq<string>)
    ensures CsvJoin(items) == [] <==> forall k :: 0 <= k < |items| ==> items[k] == []
  {
    if items != [] {
      var init := items[..|items| - 1];
      CsvJoinEmptyIff(init);
      assert forall k :: 0 <= k < |init| ==> init[k] == items[k];
    }
  }

  /** Splitting the list on commas recovers the items, when none is empty or holds a comma. */
  lemma CsvSplitRoundTrip(items: seq<string>)
    requires items != []
    requires forall k :: 0 <= k < |items| ==> items[k] != [] && ',' !in items[k]
    ensures SplitOn(CsvJoin(items), ',') == items
  {
    CsvJoinIsJoin(items);
    SplitJoin(items, ',');
  }

  /** Column names at the given positions. */
  function NameItems(cols: seq<Column>, ix: seq<nat>): (r: seq<string>)
    requires forall k :: 0 <= k < |ix| ==> ix[k] < |cols|
    ensures |r| == |ix|
  {
    seq(|ix|, k requires 0 <= k < |ix| => cols[ix[k]].ColumnName)
  }

  /** `name datatype` parameter declarations at the given positions. */
  function ParameterDeclItems(cols: seq<Column>, ix: seq<nat>): (r: seq<string>)
    requires forall k :: 0 <= k < |ix| ==> ix[k] < |cols|
    ensures |r| == |ix|
  {
    seq(|ix|, k requires 0 <= k < |ix| => cols[ix[k]].ColumnName + " " + cols[ix[k]].DataType)
  }

  /** `$n` placeholders, numbered by the given positions. */
  function PlaceholderItems(ix: seq<nat>): (r: seq<string>)
    ensures |r| == |ix|
  {
    seq(|ix|, k requires 0 <= k < |ix| => "$" + NatToString(ix[k]))
  }

  /** `name=$n` assignments at the given positions, numbered by those positions. */
  function UpdateItems(cols: seq<Column>, ix: seq<nat>): (r: seq<string>)
    requires forall k :: 0 <= k < |ix| ==> ix[k] < |cols|
    ensures |r| == |ix|
  {
    seq(|ix|, k requires 0 <= k < |ix| => cols[ix[k]].ColumnName + "=$" + NatToString(ix[k]))
  }

  lemma NameItemsSnoc(cols: seq<Column>, ix: seq<nat>, i: nat)
    requires forall k :: 0 <= k < |ix| ==> ix[k] < |cols|
    requires i < |cols|
    ensures NameItems(cols, ix + [i]) == NameItems(cols, ix) + [cols[i].ColumnName]
  {
  }

  lemma ParameterDeclItemsSnoc(cols: seq<Column>, ix: seq<nat>, i: nat)
    requires forall k :: 0 <= k < |ix| ==> ix[k] < |cols|
    requires i < |cols|
    ensures ParameterDeclItems(cols, ix + [i]) == ParameterDeclItems(cols, ix) + [cols[i].ColumnName + " " + cols[i].DataType]
  {
  }

  lemma PlaceholderItemsSnoc(ix: seq<nat>, i: nat)
    ensures PlaceholderItems(ix + [i]) == PlaceholderItems(ix) + ["$" + NatToString(i)]
  {
  }

  lemma UpdateItemsSnoc(cols: seq<Column>, ix: seq<nat>, i: nat)
    requires forall k :: 0 <= k < |ix| ==> ix[k] < |cols|
    requires i < |cols|
    ensures UpdateItems(cols, ix + [i]) == UpdateItems(cols, ix) + [cols[i].ColumnName + "=$" + NatToString(i)]
  {
  }

  /** Prefixed code names of all columns. */
  function CodeNameItems(cols: seq<Column>, prefix: string): (r: seq<string>)
    ensures |r| == |cols|
  {
    seq(|cols|, k requires 0 <= k < |cols| => prefix + cols[k].CodeName)
  }

  function AllIndices(n: nat): (r: seq<nat>)
    ensures |r| == n && forall k :: 0 <= k < n ==> r[k] < n
  {
    seq(n, k requires 0 <= k < n => k)
  }

  /** `toColumnNameListCSV`: every column name, in stored order. */
  method ToColumnNameListCsv(table: Table) returns (s: string)
    ensures s == CsvJoin(NameItems(table.Columns, AllIndices(|table.Columns|)))
  {
    var cols := table.Columns;
    s := "";
    for i := 0 to |cols|
      invariant s == CsvJoin(NameItems(cols, AllIndices(i)))
    {
      assert NameItems(cols, AllIndices(i + 1)) == NameItems(cols, AllIndices(i)) + [cols[i].ColumnName];
      CsvJoinSnoc(NameItems(cols, AllIndices(i)), cols[i].ColumnName);
      if |s| > 0 {
        s := s + ",";
      }
      s := s + cols[i].ColumnName;
    }
  }

  /** `toColumnNameListNoPrimaryKeysCSV`: the names of the columns that are not
      primary keys, in stored order. */
  method ToColumnNameListNoPrimaryKeysCsv(table: Table) returns (s: string)
    ensures s == CsvJoin(NameItems(table.Columns, Positions(table.Columns, IsNonKey)))
  {
    var cols := table.Columns;
    s := "";
    for i := 0 to |cols|
      invariant s == CsvJoin(NameItems(cols, Positions(cols[..i], IsNonKey)))
    {
      PositionsStep(cols, IsNonKey, i);
      if cols[i].IsPrimaryKey {
        assert Positions(cols[..i + 1], IsNonKey) == Positions(cols[..i], IsNonKey);
        continue;
      }
      ghost var ix := Positions(cols[..i], IsNonKey);
      NameItemsSnoc(cols, ix, i);
      CsvJoinSnoc(NameItems(cols, ix), cols[i].ColumnName);
      if |s| > 0 {
        s := s + ",";
      }
      s := s + cols[i].ColumnName;
    }
    assert cols[..|cols|] == cols;
  }

  /** `toPrimaryKeyParametersCSV`: `name datatype` for each primary-key column. */
  method ToPrimaryKeyParametersCsv(table: Table) returns (s: string)
    ensures s == CsvJoin(ParameterDeclItems(table.Columns, Positions(table.Columns, IsKey)))
  {
    var cols := table.Columns;
    s := "";
    for i := 0 to |cols|
      invariant s == CsvJoin(ParameterDeclItems(cols, Positions(cols[..i], IsKey)))
    {
      PositionsStep(cols, IsKey, i);
      if cols[i].IsPrimaryKey {
        var item := cols[i].ColumnName + " " + cols[i].DataType;
        ghost var ix := Positions(cols[..i], IsKey);
        ParameterDeclItemsSnoc(cols, ix, i);
        CsvJoinSnoc(ParameterDeclItems(cols, ix), item);
        if |s| > 0 {
          s := s + ",";
        }
        s := s + item;
      } else {
        assert Positions(cols[..i + 1], IsKey) == Positions(cols[..i], IsKey);
      }
    }
    assert cols[..|cols|] == cols;
  }

  /** `toCodeNameListCSV`: every column's code name behind `prefix`, in stored order. */
  method ToCodeNameListCsv(table: Table, prefix: string) returns (s: string)
    ensures s == CsvJoin(CodeNameItems(table.Columns, prefix))
  {
    var cols := table.Columns;
    s := "";
    for i := 0 to |cols|
      invariant s == CsvJoin(CodeNameItems(cols[..i], prefix))
    {
      assert CodeNameItems(cols[..i + 1], prefix) == CodeNameItems(cols[..i], prefix) + [prefix + cols[i].CodeName];
      CsvJoinSnoc(CodeNameItems(cols[..i], prefix), prefix + cols[i].CodeName);
      if |s| > 0 {
        s := s + ",";
      }
      s := s + (prefix + cols[i].CodeName);
    }
    assert cols[..|cols|] == cols;
  }

  /** `toParameterListNoPrimaryKeysCSV` as written: a `$i` placeholder per column that is
      not a primary key, `i` being the column's 0-based position. */
  method ToParameterListNoPrimaryKeysCsv(table: Table) returns (s: string)
    ensures s == CsvJoin(PlaceholderItems(Positions(table.Columns, IsNonKey)))
  {
    var cols := table.Columns;
    s := "";
    for i := 0 to |cols|
      invariant s == CsvJoin(PlaceholderItems(Positions(cols[..i], IsNonKey)))
    {
      PositionsStep(cols, IsNonKey, i);
      if cols[i].IsPrimaryKey {
        assert Positions(cols[..i + 1], IsNonKey) == Positions(cols[..i], IsNonKey);
        continue;
      }
      var item := "$" + NatToString(i);
      ghost var ix := Positions(cols[..i], IsNonKey);
      PlaceholderItemsSnoc(ix, i);
      CsvJoinSnoc(PlaceholderItems(ix), item);
      if |s| > 0 {
        s := s + ",";
      }
      s := s + item;
    }
    assert cols[..|cols|] == cols;
  }

  /** `toUpdateListNoPrimaryKeysCSV` as written: `name=$i` per column that is not a
      primary key, `i` being the column's 0-based position. */
  method ToUpdateListNoPrimaryKeysCsv(table: Table) returns (s: string)
    ensures s == CsvJoin(UpdateItems(table.Columns, Positions(table.Columns, IsNonKey)))
  {
    var cols := table.Columns;
    s := "";
    for i := 0 to |cols|
      invariant s == CsvJoin(UpdateItems(cols, Positions(cols[..i], IsNonKey)))
    {
      PositionsStep(cols, IsNonKey, i);
      if cols[i].IsPrimaryKey {
        assert Positions(cols[..i + 1], IsNonKey) == Positions(cols[..i], IsNonKey);
        continue;
      }
      var item := cols[i].ColumnName + "=$" + NatToString(i);
      ghost var ix := Positions(cols[..i], IsNonKey);
      UpdateItemsSnoc(cols, ix, i);
      CsvJoinSnoc(UpdateItems(cols, ix), item);
      if |s| > 0 {
        s := s + ",";
      }
      s := s + item;
    }
    assert cols[..|cols|] == cols;
  }

  /** `columnIdxAfterPrimaryKeys`: one more than the number of columns that are not
      primary keys. */
  method ColumnIdxAfterPrimaryKeys(table: Table) returns (n: int)
    ensures n == |Positions(table.Columns, IsNonKey)| + 1
    ensures n == |table.Columns| - |Positions(table.Columns, IsKey)| + 1
  {
    var cols := table.Columns;
    var c := 0;
    for i := 0 to |cols|
      invariant c == |Positions(cols[..i], IsNonKey)|
    {
      PositionsStep(cols, IsNonKey, i);
      if cols[i].IsPrimaryKey {
        assert Positions(cols[..i + 1], IsNonKey) == Positions(cols[..i], IsNonKey);
        continue;
      }
      c := c + 1;
    }
    assert cols[..|cols|] == cols;
    KeyPositionsCount(cols);
    n := c + 1;
  }

  /** The usual layout: one primary key, stored first. */
  predicate SingleLeadingKey(cols: seq<Column>) {
    && cols != []
    && cols[0].IsPrimaryKey
    && forall i :: 1 <= i < |cols| ==> !cols[i].IsPrimaryKey
  }

  /** With a single leading primary key the other columns sit at 1, 2, ..., so the
      placeholders run `$1..$n` and `columnIdxAfterPrimaryKeys` names the key's
      placeholder, one past them. */
  lemma {:induction false} LeadingKeyNumbering(cols: seq<Column>)
    requires SingleLeadingKey(cols)
    ensures Positions(cols, IsNonKey) == seq(|cols| - 1, k requires 0 <= k < |cols| - 1 => k + 1)
    ensures |Positions(cols, IsNonKey)| + 1 == |cols|
  {
    if |cols| > 1 {
      var init := cols[..|cols| - 1];
      assert init[0] == cols[0];
      assert forall i :: 1 <= i < |init| ==> init[i] == cols[i];
      LeadingKeyNumbering(init);
    }
  }

  /** As written, the placeholder of a column that is not a key is its 0-based position:
      when the first column is not a primary key the list opens with `$0`, a number
      Postgres never binds. */
  lemma PlaceholderZero(cols: seq<Column>)
    requires cols != [] && !cols[0].IsPrimaryKey
    ensures |Positions(cols, IsNonKey)| > 0
    ensures PlaceholderItems(Positions(cols, IsNonKey))[0] == "$0"
    ensures UpdateItems(cols, Positions(cols, IsNonKey))[0] == cols[0].ColumnName + "=$0"
  {
    FirstNonKeyIndex(cols);
  }

  lemma {:induction false} FirstNonKeyIndex(cols: seq<Column>)
    requires cols != [] && !cols[0].IsPrimaryKey
    ensures |Positions(cols, IsNonKey)| > 0 && Positions(cols, IsNonKey)[0] == 0
  {
    if |cols| > 1 {
      var init := cols[..|cols| - 1];
      assert init[0] == cols[0];
      FirstNonKeyIndex(init);
    }
  }

  /** The table of the finding: a text column stored before its primary key. */
  function NameThenKey(): Table {
    var name := Column(1, "name", "Name", "Name", "name", "name", "", false, false, false, false, false, false, false,
                       "text", "string", None, None, None);
    var id := Column(2, "id", "Id", "Id", "id", "id", "", true, false, true, false, false, false, false,
                     "bigint", "int64", None, None, None);
    Table("public", "tag", "Tag", "Tag", "", "tag", "tag", "", "postgres", "", "BASE TABLE", true,
          [name, id], [], [], [])
  }

  lemma NameThenKeyPlaceholders()
    ensures CsvJoin(PlaceholderItems(Positions(NameThenKey().Columns, IsNonKey))) == "$0"
    ensures CsvJoin(UpdateItems(NameThenKey().Columns, Positions(NameThenKey().Columns, IsNonKey))) == "name=$0"
  {
    var cols := NameThenKey().Columns;
    assert Positions(cols[..1], IsNonKey) == [0];
    assert Positions(cols, IsNonKey) == [0];
    assert NatToString(0) == "0";
  }

  /** Placeholders numbered by their place in the list, from 1. */
  function NumberedPlaceholders(m: nat): (r: seq<string>)
    ensures |r| == m
  {
    seq(m, k requires 0 <= k < m => "$" + NatToString(k + 1))
  }

  /** Assignments at the given positions, numbered by their place in the list, from 1. */
  function NumberedUpdateItems(cols: seq<Column>, ix: seq<nat>): (r: seq<string>)
    requires forall k :: 0 <= k < |ix| ==> ix[k] < |cols|
    ensures |r| == |ix|
  {
    seq(|ix|, k requires 0 <= k < |ix| => cols[ix[k]].ColumnName + "=$" + NatToString(k + 1))
  }

  lemma NumberedPlaceholdersSnoc(m: nat)
    ensures NumberedPlaceholders(m + 1) == NumberedPlaceholders(m) + ["$" + NatToString(m + 1)]
  {
  }

  lemma NumberedUpdateItemsSnoc(cols: seq<Column>, ix: seq<nat>, i: nat)
    requires forall k :: 0 <= k < |ix| ==> ix[k] < |cols|
    requires i < |cols|
    ensures NumberedUpdateItems(cols, ix + [i])
            == NumberedUpdateItems(cols, ix) + [cols[i].ColumnName + "=$" + NatToString(|ix| + 1)]
  {
  }

  /** The numbered placeholders are `$1..$m`: each reads back as its place plus one, so
      they are distinct, none is `$0`, and the next free number is `m + 1`, the value of
      `columnIdxAfterPrimaryKeys`. */
  lemma NumberedPlaceholdersRange(m: nat)
    requires m < MaxInt64
    ensures forall k :: 0 <= k < m ==>
              NumberedPlaceholders(m)[k][0] == '$' && AtoiOrZero(NumberedPlaceholders(m)[k][1..]) == k + 1
  {
    forall k | 0 <= k < m
      ensures NumberedPlaceholders(m)[k][0] == '$' && AtoiOrZero(NumberedPlaceholders(m)[k][1..]) == k + 1
    {
      var p := NumberedPlaceholders(m)[k];
      assert p[1..] == NatToString(k + 1);
      AtoiOfNatToString(k + 1);
    }
  }

  /** With the usual layout the corrected lists are the lists as written. */
  lemma NumberedAgreesWithLeadingKey(cols: seq<Column>)
    requires SingleLeadingKey(cols)
    ensures NumberedPlaceholders(|Positions(cols, IsNonKey)|) == PlaceholderItems(Positions(cols, IsNonKey))
    ensures NumberedUpdateItems(cols, Positions(cols, IsNonKey)) == UpdateItems(cols, Positions(cols, IsNonKey))
  {
    LeadingKeyNumbering(cols);
  }

  /** `toParameterListNoPrimaryKeysCSV` as evidently intended: the placeholders of the
      columns that are not primary keys counted from `$1`. */
  method ToParameterListNoPrimaryKeysCsvNumbered(table: Table) returns (s: string)
    ensures s == CsvJoin(NumberedPlaceholders(|Positions(table.Columns, IsNonKey)|))
  {
    var cols := table.Columns;
    s := "";
    var n := 0;
    for i := 0 to |cols|
      invariant n == |Positions(cols[..i], IsNonKey)|
      invariant s == CsvJoin(NumberedPlaceholders(n))
    {
      PositionsStep(cols, IsNonKey, i);
      if cols[i].IsPrimaryKey {
        continue;
      }
      n := n + 1;
      var item := "$" + NatToString(n);
      NumberedPlaceholdersSnoc(n - 1);
      CsvJoinSnoc(NumberedPlaceholders(n - 1), item);
      if |s| > 0 {
        s := s + ",";
      }
      s := s + item;
    }
    assert cols[..|cols|] == cols;
  }

  /** `toUpdateListNoPrimaryKeysCSV` as evidently intended: `name=$n` with `n` counted
      from 1 over the columns that are not primary keys. */
  method ToUpdateListNoPrimaryKeysCsvNumbered(table: Table) returns (s: string)
    ensures s == CsvJoin(NumberedUpdateItems(table.Columns, Positions(table.Columns, IsNonKey)))
  {
    var cols := table.Columns;
    s := "";
    var n := 0;
    for i := 0 to |cols|
      invariant n == |Positions(cols[..i], IsNonKey)|
      invariant s == CsvJoin(NumberedUpdateItems(cols, Positions(cols[..i], IsNonKey)))
    {
      PositionsStep(cols, IsNonKey, i);
      if cols[i].IsPrimaryKey {
        assert Positions(cols[..i + 1], IsNonKey) == Positions(cols[..i], IsNonKey);
        continue;
      }
      n := n + 1;
      var item := cols[i].ColumnName + "=$" + NatToString(n);
      ghost var ix := Positions(cols[..i], IsNonKey);
      NumberedUpdateItemsSnoc(cols, ix, i);
      CsvJoinSnoc(NumberedUpdateItems(cols, ix), item);
      if |s| > 0 {
        s := s + ",";
      }
      s := s + item;
    }
    assert cols[..|cols|] == cols;
  }
}
