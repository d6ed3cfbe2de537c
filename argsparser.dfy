/** The command-line parser (src/argsParser/main.go): the program declares boolean flags
    and key/value arguments, then `Parse` matches the argument list against them once,
    filing every problem under the position of the argument that caused it, or under
    position 0 for a required name that was never given. */
module ArgsParser {
  import opened Wrappers
  import opened Text

  // ---------------------------------------------------------------- leading dashes

  /** Stripping dashes removes exactly the leading run of `-`: the result is what
      follows it. */
  function DropDashes(s: string): (r: string)
    ensures |r| <= |s| && r == s[|s| - |r|..]
    ensures forall i :: 0 <= i < |s| - |r| ==> s[i] == '-'
    ensures r == [] || r[0] != '-'
  {
    if s != [] && s[0] == '-' then DropDashes(s[1..]) else s
  }

  function Dashes(n: nat): (r: string)
    ensures |r| == n && forall i :: 0 <= i < n ==> r[i] == '-'
  {
    seq(n, _ => '-')
  }

  /** `removeLeadingDashes`: trim, strip every leading `-`, trim again. */
  function WithoutLeadingDashes(text: string): string {
    TrimSpace(DropDashes(TrimSpace(text)))
  }

  /** An argument without white space loses its leading dashes and nothing else. */
  lemma WithoutLeadingDashesNoSpace(text: string)
    requires NoSpace(text)
    ensures var r := WithoutLeadingDashes(text);
      && text == Dashes(|text| - |r|) + r
      && (r == [] || r[0] != '-')
  {
    TrimSpaceUnchanged(text);
    var d := DropDashes(text);
    assert text == Dashes(|text| - |d|) + d;
    assert NoSpace(d);
    TrimSpaceUnchanged(d);
  }

  /** One turn of the dash loop: a text that starts with `-` loses that dash, and any
      other text is already stripped. */
  lemma DropDashesStep(r: string)
    ensures DropDashes(r) == if HasPrefix(r, "-") then DropDashes(r[1..]) else r
  {
    assert HasPrefix(r, "-") <==> r != [] && r[0] == '-' by {
      if r != [] {
        assert r[..1] == [r[0]];
      }
    }
  }

  /** `removeLeadingDashes`, dash by dash. */
  method RemoveLeadingDashes(text: string) returns (r: string)
    ensures r == WithoutLeadingDashes(text)
  {
    r := TrimSpace(text);
    ghost var trimmed := r;
    while HasPrefix(r, "-")
      invariant DropDashes(r) == DropDashes(trimmed)
      decreases |r|
    {
      DropDashesStep(r);
      r := r[1..];
    }
    DropDashesStep(r);
    r := TrimSpace(r);
  }

  // ---------------------------------------------------------------- items

  /** One argument as `Parse` sees it: its 1-based position, whether it is a flag or the
      key of a key/value pair, its name or text, and a pair's value. */
  datatype FoundItem = FoundItem(Index: int, IsFlag: bool, IsValue: bool, Tag: string, Text: string)

  /** `New`'s normalisation of an argument: one starting with `-` is trimmed and
      lower-cased, any other is kept as given. */
  function Normalised(arg: string): string {
    if HasPrefix(arg, "-") then Lower(TrimSpace(arg)) else arg
  }

  /** The item of the argument at `position`: a trimmed argument starting with `-` is a
      flag named without its dashes, any other is plain text. */
  function GatheredItem(arg: string, position: int): FoundItem {
    var text := TrimSpace(arg);
    if HasPrefix(text, "-") then FoundItem(position, true, false, WithoutLeadingDashes(text), "")
    else FoundItem(position, false, false, text, "")
  }

  function Gathered(args: seq<string>): (f: seq<FoundItem>)
    ensures |f| == |args| && forall i :: 0 <= i < |args| ==> f[i] == GatheredItem(args[i], i + 1)
  {
    seq(|args|, i requires 0 <= i < |args| => GatheredItem(args[i], i + 1))
  }

  lemma GatheredSnoc(args: seq<string>, i: nat)
    requires i < |args|
    ensures Gathered(args[..i + 1]) == Gathered(args[..i]) + [GatheredItem(args[i], i + 1)]
  {
    assert args[..i + 1] == args[..i] + [args[i]];
  }

  /** The item at `k` once the pairs of neighbours ending before `n` are looked at: a
      flag directly followed by plain text becomes a key/value item holding that text,
      and the text's own item is emptied. */
  function PairedUpTo(f: seq<FoundItem>, n: nat, k: nat): FoundItem
    requires k < |f|
  {
    if f[k].IsFlag && k + 1 < n && k + 1 < |f| && !f[k + 1].IsFlag then
      f[k].(IsFlag := false, IsValue := true, Text := f[k + 1].Tag)
    else if !f[k].IsFlag && 0 < k < n && f[k - 1].IsFlag then
      f[k].(Tag := "")
    else
      f[k]
  }

  function Paired(f: seq<FoundItem>): (p: seq<FoundItem>)
    ensures |p| == |f|
  {
    seq(|f|, k requires 0 <= k < |f| => PairedUpTo(f, |f|, k))
  }

  /** Items are numbered by their position in the argument list. */
  predicate Numbered(f: seq<FoundItem>) {
    forall i :: 0 <= i < |f| ==> f[i].Index == i + 1
  }

  /** Pairing in words: a flag becomes a key exactly when plain text follows it, taking
      that text as its value; the text is then emptied; nothing else changes and every
      item keeps its position. */
  lemma PairedItems(f: seq<FoundItem>, k: nat)
    requires Numbered(f) && k < |f|
    requires forall i :: 0 <= i < |f| ==> !f[i].IsValue
    ensures var p := Paired(f);
      && Numbered(p)
      && (p[k].IsValue <==> f[k].IsFlag && k + 1 < |f| && !f[k + 1].IsFlag)
      && (p[k].IsFlag <==> f[k].IsFlag && !p[k].IsValue)
      && (p[k].IsValue ==> p[k].Tag == f[k].Tag && p[k].Text == f[k + 1].Tag && p[k + 1].Tag == "")
      && (!p[k].IsValue && !(k > 0 && p[k - 1].IsValue) ==> p[k] == f[k])
  {
  }

  /** The items `Parse` keeps: those with a non-empty name or text, in order. */
  function Kept(p: seq<FoundItem>): seq<FoundItem> {
    if p == [] then []
    else Kept(p[..|p| - 1]) + (if |p[|p| - 1].Tag| > 0 then [p[|p| - 1]] else [])
  }

  /** Sifting only drops items: every kept item is one of the items, with a name or text. */
  lemma {:induction false} KeptFrom(p: seq<FoundItem>)
    ensures |Kept(p)| <= |p|
    ensures forall x :: x in Kept(p) ==> x in p && |x.Tag| > 0
  {
    if p != [] {
      KeptFrom(p[..|p| - 1]);
    }
  }

  // ---------------------------------------------------------------- issues

  /** A message filed under an argument position. */
  datatype Note = Note(position: int, message: string)

  /** The messages filed under `position`, in filing order. */
  function MessagesAt(notes: seq<Note>, position: int): seq<string> {
    if notes == [] then []
    else
      MessagesAt(notes[..|notes| - 1], position)
        + (if notes[|notes| - 1].position == position then [notes[|notes| - 1].message] else [])
  }

  /** The issue slots after filing `notes` in order, each appended to its own slot. */
  function Filed(issues: seq<seq<string>>, notes: seq<Note>): (r: seq<seq<string>>)
    ensures |r| == |issues|
  {
    seq(|issues|, j requires 0 <= j < |issues| => issues[j] + MessagesAt(notes, j))
  }

  predicate InSlots(notes: seq<Note>, slots: int) {
    forall i :: 0 <= i < |notes| ==> 0 <= notes[i].position < slots
  }

  lemma MessagesAtSnoc(notes: seq<Note>, n: Note, position: int)
    ensures MessagesAt(notes + [n], position) ==
              MessagesAt(notes, position) + (if n.position == position then [n.message] else [])
  {
    assert (notes + [n])[..|notes|] == notes;
  }

  lemma FiledNone(issues: seq<seq<string>>)
    ensures Filed(issues, []) == issues
  {
    forall j | 0 <= j < |issues|
      ensures Filed(issues, [])[j] == issues[j]
    {
      assert issues[j] + [] == issues[j];
    }
  }

  /** Filing at most one more note appends its message to its own slot and nothing else. */
  lemma FiledMore(issues: seq<seq<string>>, notes: seq<Note>, more: seq<Note>)
    requires |more| <= 1
    requires more != [] ==> 0 <= more[0].position < |issues|
    ensures more == [] ==> Filed(issues, notes + more) == Filed(issues, notes)
    ensures more != [] ==>
              Filed(issues, notes + more) ==
                Filed(issues, notes)[more[0].position := Filed(issues, notes)[more[0].position] + [more[0].message]]
  {
    if more == [] {
      assert notes + more == notes;
    } else {
      var n := more[0];
      assert more == [n];
      var r := Filed(issues, notes)[n.position := Filed(issues, notes)[n.position] + [n.message]];
      forall j | 0 <= j < |issues|
        ensures Filed(issues, notes + more)[j] == r[j]
      {
        MessagesAtSnoc(notes, n, j);
      }
    }
  }

  lemma {:induction false} MessagesAtConcat(a: seq<Note>, b: seq<Note>, position: int)
    ensures MessagesAt(a + b, position) == MessagesAt(a, position) + MessagesAt(b, position)
  {
    if b == [] {
      assert a + b == a;
    } else {
      var init := b[..|b| - 1];
      var last := b[|b| - 1];
      assert a + b == (a + init) + [last];
      assert b == init + [last];
      MessagesAtConcat(a, init, position);
      MessagesAtSnoc(a + init, last, position);
      MessagesAtSnoc(init, last, position);
    }
  }

  /** Filing two runs of notes one after the other is filing their concatenation. */
  lemma FiledTwice(issues: seq<seq<string>>, a: seq<Note>, b: seq<Note>)
    ensures Filed(Filed(issues, a), b) == Filed(issues, a + b)
  {
    forall j | 0 <= j < |issues|
      ensures Filed(Filed(issues, a), b)[j] == Filed(issues, a + b)[j]
    {
      MessagesAtConcat(a, b, j);
      assert issues[j] + MessagesAt(a, j) + MessagesAt(b, j) == issues[j] + (MessagesAt(a, j) + MessagesAt(b, j));
    }
  }

  const CannotParse := "Cannot parse item"

  /** The note of an item the sifting drops: an emptied flag or key cannot be parsed. */
  function SiftNote(item: FoundItem): seq<Note> {
    if |item.Tag| == 0 && (item.IsFlag || item.IsValue) then [Note(item.Index, CannotParse)] else []
  }

  function SiftNotes(p: seq<FoundItem>): seq<Note> {
    if p == [] then [] else SiftNotes(p[..|p| - 1]) + SiftNote(p[|p| - 1])
  }

  function UnknownFlag(tag: string): string { "Unknown flag `-" + tag + "`" }

  function UnknownItem(tag: string): string { "Unknown item `-" + tag + "`" }

  function UnexpectedText(tag: string): string { "Unexpected text: `" + tag + "`" }

  /** The message a kept item earns: an undeclared flag or key, or stray text. */
  function CheckMessage(item: FoundItem, flags: map<string, bool>, values: map<string, string>): seq<string> {
    if item.IsFlag then
      if item.Tag in flags then [] else [UnknownFlag(item.Tag)]
    else if item.IsValue then
      if item.Tag in values then [] else [UnknownItem(item.Tag)]
    else
      [UnexpectedText(item.Tag)]
  }

  function CheckNote(item: FoundItem, flags: map<string, bool>, values: map<string, string>): (ns: seq<Note>)
    ensures |ns| <= 1
  {
    var m := CheckMessage(item, flags, values);
    if m == [] then [] else [Note(item.Index, m[0])]
  }

  function CheckNotes(found: seq<FoundItem>, flags: map<string, bool>, values: map<string, string>): seq<Note> {
    if found == [] then [] else CheckNotes(found[..|found| - 1], flags, values) + CheckNote(found[|found| - 1], flags, values)
  }

  /** The notes of the positional checks, in the order `Parse` files them. */
  function PositionNotes(p: seq<FoundItem>, flags: map<string, bool>, values: map<string, string>): seq<Note> {
    SiftNotes(p) + CheckNotes(Kept(p), flags, values)
  }

  /** What one argument contributes to its own slot, judged on its own: at most one
      message, saying why the argument was refused. */
  function IssueOf(item: FoundItem, flags: map<string, bool>, values: map<string, string>): (r: seq<string>)
    ensures |r| <= 1
  {
    if |item.Tag| == 0 then
      if item.IsFlag || item.IsValue then [CannotParse] else []
    else if item.IsFlag then
      if item.Tag in flags then [] else [UnknownFlag(item.Tag)]
    else if item.IsValue then
      if item.Tag in values then [] else [UnknownItem(item.Tag)]
    else
      [UnexpectedText(item.Tag)]
  }

  /** `Cannot parse item` for an emptied flag or value at `k`, and nothing otherwise. */
  function SiftMessageAt(p: seq<FoundItem>, k: nat): seq<string> {
    if k < |p| && |p[k].Tag| == 0 && (p[k].IsFlag || p[k].IsValue) then [CannotParse] else []
  }

  lemma SiftNoteAt(item: FoundItem, position: int)
    ensures MessagesAt(SiftNote(item), position) ==
              if item.Index == position && |item.Tag| == 0 && (item.IsFlag || item.IsValue) then [CannotParse] else []
  {
    var ns := SiftNote(item);
    if ns != [] {
      assert ns == [] + [ns[0]];
    }
  }

  lemma SiftNotesAtStep(p: seq<FoundItem>, k: nat)
    requires Numbered(p) && p != []
    requires MessagesAt(SiftNotes(p[..|p| - 1]), k + 1) == SiftMessageAt(p[..|p| - 1], k)
    ensures MessagesAt(SiftNotes(p), k + 1) == SiftMessageAt(p, k)
  {
    var init := p[..|p| - 1];
    var last := p[|p| - 1];
    MessagesAtConcat(SiftNotes(init), SiftNote(last), k + 1);
    SiftNoteAt(last, k + 1);
    assert last.Index == |p|;
    var atInit := SiftMessageAt(init, k);
    var atLast := MessagesAt(SiftNote(last), k + 1);
    if k < |init| {
      assert init[k] == p[k];
      assert atLast == [];
      assert atInit + atLast == SiftMessageAt(p, k);
    } else {
      assert atInit == [];
      assert atInit + atLast == SiftMessageAt(p, k);
    }
  }

  lemma {:induction false} SiftNotesAtZero(p: seq<FoundItem>)
    requires Numbered(p)
    ensures MessagesAt(SiftNotes(p), 0) == []
  {
    if p != [] {
      var init := p[..|p| - 1];
      assert Numbered(init);
      SiftNotesAtZero(init);
      MessagesAtConcat(SiftNotes(init), SiftNote(p[|p| - 1]), 0);
      SiftNoteAt(p[|p| - 1], 0);
    }
  }

  lemma {:induction false} SiftNotesAt(p: seq<FoundItem>, k: nat)
    requires Numbered(p)
    ensures MessagesAt(SiftNotes(p), k + 1) ==
              if k < |p| && |p[k].Tag| == 0 && (p[k].IsFlag || p[k].IsValue) then [CannotParse] else []
    ensures MessagesAt(SiftNotes(p), 0) == []
  {
    if p != [] {
      var init := p[..|p| - 1];
      assert Numbered(init);
      SiftNotesAt(init, k);
      SiftNotesAtStep(p, k);
    }
    SiftNotesAtZero(p);
  }

  lemma CheckNoteAt(item: FoundItem, flags: map<string, bool>, values: map<string, string>, position: int)
    ensures MessagesAt(CheckNote(item, flags, values), position) ==
              if item.Index == position then CheckMessage(item, flags, values) else []
  {
    var ns := CheckNote(item, flags, values);
    if ns != [] {
      assert ns == [] + [ns[0]];
    }
  }

  lemma CheckNotesSnoc(found: seq<FoundItem>, item: FoundItem, flags: map<string, bool>, values: map<string, string>)
    ensures CheckNotes(found + [item], flags, values) == CheckNotes(found, flags, values) + CheckNote(item, flags, values)
  {
    assert (found + [item])[..|found|] == found;
  }

  /** Checking one more item adds its message, if it is kept and has one, under its own
      position. */
  lemma CheckNotesKeptSnoc(p: seq<FoundItem>, flags: map<string, bool>, values: map<string, string>, position: int)
    requires p != []
    ensures var last := p[|p| - 1];
      MessagesAt(CheckNotes(Kept(p), flags, values), position) ==
        MessagesAt(CheckNotes(Kept(p[..|p| - 1]), flags, values), position)
          + (if |last.Tag| > 0 && last.Index == position then CheckMessage(last, flags, values) else [])
  {
    var init := p[..|p| - 1];
    var last := p[|p| - 1];
    var before := CheckNotes(Kept(init), flags, values);
    if |last.Tag| > 0 {
      assert Kept(p) == Kept(init) + [last];
      CheckNotesSnoc(Kept(init), last, flags, values);
      MessagesAtConcat(before, CheckNote(last, flags, values), position);
      CheckNoteAt(last, flags, values, position);
      if last.Index != position {
        assert MessagesAt(before, position) + [] == MessagesAt(before, position);
      }
    } else {
      assert Kept(p) == Kept(init);
      assert MessagesAt(before, position) + [] == MessagesAt(before, position);
    }
  }

  /** The message an item at `k` leaves under its own position once checked, if kept. */
  function KeptMessageAt(p: seq<FoundItem>, flags: map<string, bool>, values: map<string, string>, k: nat): seq<string> {
    if k < |p| && |p[k].Tag| > 0 then CheckMessage(p[k], flags, values) else []
  }

  lemma CheckNotesAtStep(p: seq<FoundItem>, flags: map<string, bool>, values: map<string, string>, k: nat)
    requires Numbered(p) && p != []
    requires MessagesAt(CheckNotes(Kept(p[..|p| - 1]), flags, values), k + 1) == KeptMessageAt(p[..|p| - 1], flags, values, k)
    ensures MessagesAt(CheckNotes(Kept(p), flags, values), k + 1) == KeptMessageAt(p, flags, values, k)
  {
    var init := p[..|p| - 1];
    var last := p[|p| - 1];
    CheckNotesKeptSnoc(p, flags, values, k + 1);
    var atInit := KeptMessageAt(init, flags, values, k);
    var goal := KeptMessageAt(p, flags, values, k);
    var atLast := if |last.Tag| > 0 && last.Index == k + 1 then CheckMessage(last, flags, values) else [];
    assert last.Index == |p|;
    if k < |init| {
      assert atInit == goal by {
        assert init[k] == p[k];
      }
      assert atLast == [];
      assert atInit + atLast == goal;
    } else if k == |init| {
      assert atInit == [];
      assert atLast == goal;
      assert atInit + atLast == goal;
    } else {
      assert atInit == [] && atLast == [] && goal == [];
      assert atInit + atLast == goal;
    }
  }

  lemma {:induction false} CheckNotesAt(p: seq<FoundItem>, flags: map<string, bool>, values: map<string, string>, k: nat)
    requires Numbered(p)
    ensures MessagesAt(CheckNotes(Kept(p), flags, values), k + 1) == KeptMessageAt(p, flags, values, k)
  {
    if p != [] {
      assert Numbered(p[..|p| - 1]);
      CheckNotesAt(p[..|p| - 1], flags, values, k);
      CheckNotesAtStep(p, flags, values, k);
    }
  }

  lemma {:induction false} CheckNotesAtZero(p: seq<FoundItem>, flags: map<string, bool>, values: map<string, string>)
    requires Numbered(p)
    ensures MessagesAt(CheckNotes(Kept(p), flags, values), 0) == []
  {
    if p != [] {
      assert Numbered(p[..|p| - 1]);
      CheckNotesAtZero(p[..|p| - 1], flags, values);
      CheckNotesKeptSnoc(p, flags, values, 0);
    }
  }

  /** The positional checks file under each argument's own position exactly the issue
      that argument earns on its own, and nothing under position 0. */
  lemma IssuesByPosition(p: seq<FoundItem>, flags: map<string, bool>, values: map<string, string>, k: nat)
    requires Numbered(p) && k < |p|
    ensures MessagesAt(PositionNotes(p, flags, values), k + 1) == IssueOf(p[k], flags, values)
    ensures MessagesAt(PositionNotes(p, flags, values), 0) == []
  {
    SiftNotesAt(p, k);
    CheckNotesAt(p, flags, values, k);
    CheckNotesAtZero(p, flags, values);
    MessagesAtConcat(SiftNotes(p), CheckNotes(Kept(p), flags, values), k + 1);
    MessagesAtConcat(SiftNotes(p), CheckNotes(Kept(p), flags, values), 0);
  }

  // ---------------------------------------------------------------- declared names

  function Required(required: map<string, bool>, name: string): bool {
    name in required && required[name]
  }

  /** The names of the kept flag items. */
  function GivenFlags(found: seq<FoundItem>): set<string> {
    if found == [] then {}
    else GivenFlags(found[..|found| - 1]) + (if found[|found| - 1].IsFlag then {found[|found| - 1].Tag} else {})
  }

  /** The kept key/value items as a map, a later item overwriting an earlier one with the
      same key. */
  function GivenValues(found: seq<FoundItem>): map<string, string> {
    if found == [] then map[]
    else
      var given := GivenValues(found[..|found| - 1]);
      if found[|found| - 1].IsValue then given[found[|found| - 1].Tag := found[|found| - 1].Text] else given
  }

  /** A flag is given exactly when some kept flag item names it. */
  lemma {:induction false} GivenFlagsIff(found: seq<FoundItem>, name: string)
    ensures name in GivenFlags(found) <==> exists i :: 0 <= i < |found| && found[i].IsFlag && found[i].Tag == name
  {
    if found != [] {
      var init := found[..|found| - 1];
      GivenFlagsIff(init, name);
      assert forall i :: 0 <= i < |init| ==> init[i] == found[i];
    }
  }

  /** A key is given exactly when some kept key/value item names it, and then it holds
      the text of the last such item. */
  lemma {:induction false} GivenValuesLastWins(found: seq<FoundItem>, name: string)
    ensures name in GivenValues(found) <==> exists i :: 0 <= i < |found| && found[i].IsValue && found[i].Tag == name
    ensures name in GivenValues(found) ==>
              exists i :: 0 <= i < |found| && found[i].IsValue && found[i].Tag == name
                && found[i].Text == GivenValues(found)[name]
                && forall j :: i < j < |found| ==> !(found[j].IsValue && found[j].Tag == name)
  {
    if found != [] {
      var init := found[..|found| - 1];
      GivenValuesLastWins(init, name);
      assert forall i :: 0 <= i < |init| ==> init[i] == found[i];
    }
  }

  /** The flags after parsing: a declared flag that was given becomes true, any other
      keeps its default. */
  function Marked(flags: map<string, bool>, found: seq<FoundItem>): map<string, bool> {
    MarkedAmong(flags, GivenFlags(found), flags.Keys)
  }

  /** The values after parsing: a declared key that was given takes the text of its last
      occurrence, any other keeps its default. */
  function Taken(values: map<string, string>, found: seq<FoundItem>): map<string, string> {
    TakenAmong(values, GivenValues(found), values.Keys)
  }

  /** The flags once the declared flags among `names` have been looked at. */
  function MarkedAmong(flags: map<string, bool>, given: set<string>, names: set<string>): map<string, bool> {
    map k | k in flags :: if k in names && k in given then true else flags[k]
  }

  /** The values once the declared keys among `names` have been looked at. */
  function TakenAmong(values: map<string, string>, given: map<string, string>, names: set<string>): map<string, string> {
    map k | k in values :: if k in names && k in given then given[k] else values[k]
  }

  lemma MarkedAmongStep(flags: map<string, bool>, given: set<string>, names: set<string>, name: string)
    requires name in flags && name !in names
    ensures MarkedAmong(flags, given, names + {name}) ==
              if name in given then MarkedAmong(flags, given, names)[name := true] else MarkedAmong(flags, given, names)
  {
  }

  lemma TakenAmongStep(values: map<string, string>, given: map<string, string>, names: set<string>, name: string)
    requires name in values && name !in names
    ensures TakenAmong(values, given, names + {name}) ==
              if name in given then TakenAmong(values, given, names)[name := given[name]] else TakenAmong(values, given, names)
  {
  }

  lemma AmongNone(flags: map<string, bool>, given: set<string>, values: map<string, string>, givenValues: map<string, string>)
    ensures MarkedAmong(flags, given, {}) == flags
    ensures TakenAmong(values, givenValues, {}) == values
  {
  }

  function MissingFlag(name: string): string { "Missing flag `-" + name + "`" }

  function MissingValue(name: string): string { "Missing value for `-" + name + "`" }

  predicate NoRepeats(xs: seq<string>) {
    forall i, j :: 0 <= i < j < |xs| ==> xs[i] != xs[j]
  }

  /** `names` lists, once each, the required flags among `declared` that were not given. */
  ghost predicate ListsMissingFlags(names: seq<string>, declared: set<string>, required: map<string, bool>, given: set<string>) {
    && NoRepeats(names)
    && forall x :: x in names <==> x in declared && Required(required, x) && x !in given
  }

  /** `names` lists, once each, the required keys among `declared` that were not given. */
  ghost predicate ListsMissingValues(names: seq<string>, declared: set<string>, required: map<string, bool>, given: map<string, string>) {
    && NoRepeats(names)
    && forall x :: x in names <==> x in declared && Required(required, x) && x !in given
  }

  function MissingFlagMessages(names: seq<string>): (r: seq<string>)
    ensures |r| == |names| && forall i :: 0 <= i < |names| ==> r[i] == MissingFlag(names[i])
  {
    seq(|names|, i requires 0 <= i < |names| => MissingFlag(names[i]))
  }

  function MissingValueMessages(names: seq<string>): (r: seq<string>)
    ensures |r| == |names| && forall i :: 0 <= i < |names| ==> r[i] == MissingValue(names[i])
  {
    seq(|names|, i requires 0 <= i < |names| => MissingValue(names[i]))
  }

  /** Looking at one more declared flag lists it when it is required and was not given. */
  lemma ListsMissingFlagsStep(names: seq<string>, declared: set<string>, name: string,
                              required: map<string, bool>, given: set<string>)
    requires ListsMissingFlags(names, declared, required, given) && name !in declared
    ensures var more := if Required(required, name) && name !in given then [name] else [];
      && ListsMissingFlags(names + more, declared + {name}, required, given)
      && MissingFlagMessages(names + more) ==
           MissingFlagMessages(names) + (if more == [] then [] else [MissingFlag(name)])
  {
    var more := if Required(required, name) && name !in given then [name] else [];
    assert forall x :: x in names + more <==> x in names || x in more;
    if more == [] {
      assert names + more == names;
      assert MissingFlagMessages(names) + [] == MissingFlagMessages(names);
    }
  }

  /** Looking at one more declared key lists it when it is required and was not given. */
  lemma ListsMissingValuesStep(names: seq<string>, declared: set<string>, name: string,
                               required: map<string, bool>, given: map<string, string>)
    requires ListsMissingValues(names, declared, required, given) && name !in declared
    ensures var more := if Required(required, name) && name !in given then [name] else [];
      && ListsMissingValues(names + more, declared + {name}, required, given)
      && MissingValueMessages(names + more) ==
           MissingValueMessages(names) + (if more == [] then [] else [MissingValue(name)])
  {
    var more := if Required(required, name) && name !in given then [name] else [];
    assert forall x :: x in names + more <==> x in names || x in more;
    if more == [] {
      assert names + more == names;
      assert MissingValueMessages(names) + [] == MissingValueMessages(names);
    }
  }

  // ---------------------------------------------------------------- a whole parse

  /** The items of an argument list once gathered and paired. */
  function Items(args: seq<string>): seq<FoundItem> {
    Paired(Gathered(args))
  }

  /** The items a parse goes on with once the emptied ones are dropped. */
  function Found(args: seq<string>): seq<FoundItem> {
    Kept(Items(args))
  }

  lemma ItemsNumbered(args: seq<string>)
    ensures |Items(args)| == |args| && Numbered(Items(args))
  {
    var f := Gathered(args);
    assert Numbered(f);
    assert forall k :: 0 <= k < |f| ==> PairedUpTo(f, |f|, k).Index == f[k].Index;
  }

  /** Every kept item sits at a position between 1 and the number of arguments. */
  lemma FoundPositions(args: seq<string>)
    ensures forall x :: x in Found(args) ==> 1 <= x.Index <= |args|
  {
    ItemsNumbered(args);
    KeptFrom(Items(args));
    var p := Items(args);
    forall x | x in Found(args)
      ensures 1 <= x.Index <= |args|
    {
      var i :| 0 <= i < |p| && p[i] == x;
    }
  }

  lemma {:induction false} SiftNotesInSlots(p: seq<FoundItem>, slots: int)
    requires forall i :: 0 <= i < |p| ==> 0 <= p[i].Index < slots
    ensures InSlots(SiftNotes(p), slots)
  {
    if p != [] {
      SiftNotesInSlots(p[..|p| - 1], slots);
    }
  }

  lemma {:induction false} CheckNotesInSlots(found: seq<FoundItem>, flags: map<string, bool>, values: map<string, string>, slots: int)
    requires forall i :: 0 <= i < |found| ==> 0 <= found[i].Index < slots
    ensures InSlots(CheckNotes(found, flags, values), slots)
  {
    if found != [] {
      CheckNotesInSlots(found[..|found| - 1], flags, values, slots);
    }
  }

  /** Notes that fit the slots leave a message in some slot exactly when there are any. */
  lemma FiledSomething(notes: seq<Note>, slots: int)
    requires InSlots(notes, slots)
    ensures notes != [] <==> exists j :: 0 <= j < slots && MessagesAt(notes, j) != []
  {
    if notes != [] {
      var last := notes[|notes| - 1];
      assert MessagesAt(notes, last.position) != [];
    }
  }

  /** Every note of the positional checks sits in one of the slots. */
  lemma PositionNotesInSlots(p: seq<FoundItem>, flags: map<string, bool>, values: map<string, string>)
    requires Numbered(p)
    ensures InSlots(PositionNotes(p, flags, values), |p| + 1)
  {
    SiftNotesInSlots(p, |p| + 1);
    KeptFrom(p);
    forall i | 0 <= i < |Kept(p)|
      ensures 0 <= Kept(p)[i].Index < |p| + 1
    {
      var j :| 0 <= j < |p| && p[j] == Kept(p)[i];
    }
    CheckNotesInSlots(Kept(p), flags, values, |p| + 1);
  }

  /** The slots after a parse, from the slots before it: the positional checks leave each
      argument's issue under its own slot and the missing names follow under slot 0. */
  lemma ParsedSlots(issues: seq<seq<string>>, p: seq<FoundItem>, flags: map<string, bool>, values: map<string, string>,
                    after: seq<seq<string>>, extra: seq<string>)
    requires Numbered(p) && |issues| == |p| + 1
    requires var checked := Filed(issues, PositionNotes(p, flags, values));
      && |after| == |checked| && after[0] == checked[0] + extra && after[1..] == checked[1..]
    ensures forall k :: 0 <= k < |p| ==> after[k + 1] == issues[k + 1] + IssueOf(p[k], flags, values)
    ensures after[0] == issues[0] + extra
  {
    var notes := PositionNotes(p, flags, values);
    var checked := Filed(issues, notes);
    assert MessagesAt(notes, 0) == [] by {
      if |p| > 0 {
        IssuesByPosition(p, flags, values, 0);
      }
    }
    assert after[0] == issues[0] + extra by {
      assert checked[0] == issues[0] + [];
      assert issues[0] + [] == issues[0];
    }
    forall k | 0 <= k < |p|
      ensures after[k + 1] == issues[k + 1] + IssueOf(p[k], flags, values)
    {
      IssuesByPosition(p, flags, values, k);
      assert after[k + 1] == after[1..][k] == checked[1..][k];
    }
  }

  /** The slots change exactly when the checks filed a note or a name is missing. */
  lemma SlotsChange(issues: seq<seq<string>>, notes: seq<Note>, after: seq<seq<string>>, extra: seq<string>)
    requires InSlots(notes, |issues|) && |issues| >= 1
    requires var checked := Filed(issues, notes);
      && |after| == |checked| && after[0] == checked[0] + extra && after[1..] == checked[1..]
    ensures after != issues <==> notes != [] || extra != []
  {
    var checked := Filed(issues, notes);
    FiledSomething(notes, |issues|);
    if notes != [] {
      var j :| 0 <= j < |issues| && MessagesAt(notes, j) != [];
      if j > 0 {
        assert after[j] == after[1..][j - 1] == checked[1..][j - 1];
      }
      assert |after[j]| > |issues[j]|;
    } else if extra != [] {
      assert |after[0]| > |issues[0]|;
    } else {
      forall j | 0 <= j < |after|
        ensures after[j] == issues[j]
      {
        if j > 0 {
          assert after[j] == after[1..][j - 1] == checked[1..][j - 1];
        }
        assert issues[j] + [] == issues[j];
        assert issues[j] + [] + [] == issues[j];
      }
    }
  }

  /** The parser's state: the declared flags and keys with their defaults, help texts and
      required marks, the declaration order, the arguments after the program name, and
      the issue slots, one per argument with slot 0 for names never given. */
  class Arguments {
    var Flags: map<string, bool>
    var Values: map<string, string>
    var IsParsed: bool
    var HasIssues: bool
    var Issues: seq<seq<string>>
    var flagsOrder: seq<string>
    var valuesOrder: seq<string>
    var required: map<string, bool>
    var args: seq<string>
    var help: map<string, string>
    var colWidth: int

    /** One issue slot per argument, the program name's slot included. */
    predicate Valid()
      reads this
    {
      |Issues| == |args| + 1
    }

    /** `New`: normalises the dash arguments of `argv` in place, keeps the arguments after
        the program name and opens one empty issue slot per argument. */
    constructor New(argv: array<string>)
      requires argv.Length >= 1
      modifies argv
      ensures forall i :: 0 <= i < argv.Length ==> argv[i] == Normalised(old(argv[i]))
      ensures args == argv[1..]
      ensures Issues == seq(argv.Length, _ => [])
      ensures Valid()
      ensures Flags == map[] && Values == map[] && required == map[] && help == map[]
      ensures !IsParsed && !HasIssues && colWidth == 1 && flagsOrder == [] && valuesOrder == []
    {
      var issues: seq<seq<string>> := [];
      for i := 0 to argv.Length
        invariant |issues| == i && forall j :: 0 <= j < i ==> issues[j] == []
        invariant forall j :: 0 <= j < i ==> argv[j] == Normalised(old(argv[j]))
        invariant forall j :: i <= j < argv.Length ==> argv[j] == old(argv[j])
      {
        if HasPrefix(argv[i], "-") {
          argv[i] := Lower(TrimSpace(argv[i]));
        }
        issues := issues + [[]];
      }
      Flags := map[];
      Values := map[];
      IsParsed := false;
      HasIssues := false;
      Issues := issues;
      flagsOrder := [];
      valuesOrder := [];
      required := map[];
      args := argv[1..];
      help := map[];
      colWidth := 1;
    }

    /** `math.Max`, on the integer widths of names. */
    static function Max(a: int, b: int): int { if a < b then b else a }

    /** `AddFlag`: declares a flag under its trimmed, lower-cased name. */
    method AddFlag(name: string, isRequired: bool, defaultValue: bool, helpText: string)
      modifies this
      ensures var key := Lower(TrimSpace(name));
        && Flags == old(Flags)[key := defaultValue]
        && help == old(help)[key := helpText]
        && required == old(required)[key := isRequired]
        && colWidth == Max(old(colWidth), |key|)
        && flagsOrder == old(flagsOrder) + [key]
      ensures Values == old(Values) && valuesOrder == old(valuesOrder) && args == old(args)
      ensures Issues == old(Issues) && IsParsed == old(IsParsed) && HasIssues == old(HasIssues)
    {
      var key := Lower(TrimSpace(name));
      Flags := Flags[key := defaultValue];
      help := help[key := helpText];
      required := required[key := isRequired];
      colWidth := Max(colWidth, |key|);
      flagsOrder := flagsOrder + [key];
    }

    /** `AddValue`: declares a key/value argument under its trimmed, lower-cased name. */
    method AddValue(name: string, isRequired: bool, defaultValue: string, helpText: string)
      modifies this
      ensures var key := Lower(TrimSpace(name));
        && Values == old(Values)[key := defaultValue]
        && help == old(help)[key := helpText]
        && required == old(required)[key := isRequired]
        && colWidth == Max(old(colWidth), |key|)
        && valuesOrder == old(valuesOrder) + [key]
      ensures Flags == old(Flags) && flagsOrder == old(flagsOrder) && args == old(args)
      ensures Issues == old(Issues) && IsParsed == old(IsParsed) && HasIssues == old(HasIssues)
    {
      var key := Lower(TrimSpace(name));
      Values := Values[key := defaultValue];
      help := help[key := helpText];
      required := required[key := isRequired];
      colWidth := Max(colWidth, |key|);
      valuesOrder := valuesOrder + [key];
    }

    /** `addIssue`: files a message under a position and marks the run as having issues. */
    method AddIssue(position: int, message: string)
      requires 0 <= position < |Issues|
      modifies this
      ensures Issues == old(Issues)[position := old(Issues)[position] + [message]]
      ensures HasIssues
      ensures Flags == old(Flags) && Values == old(Values) && required == old(required)
      ensures args == old(args) && IsParsed == old(IsParsed)
      ensures help == old(help) && colWidth == old(colWidth) && flagsOrder == old(flagsOrder) && valuesOrder == old(valuesOrder)
    {
      Issues := Issues[position := Issues[position] + [message]];
      HasIssues := true;
    }

    /** The first pass of `Parse`: one item per argument. */
    method Gather() returns (f: seq<FoundItem>)
      ensures f == Gathered(args)
    {
      f := [];
      for i := 0 to |args|
        invariant f == Gathered(args[..i])
      {
        var text := TrimSpace(args[i]);
        var item := FoundItem(Index := i + 1, IsFlag := false, IsValue := false, Tag := text, Text := "");
        if HasPrefix(item.Tag, "-") {
          var tag := RemoveLeadingDashes(item.Tag);
          item := item.(IsFlag := true, Tag := tag);
        }
        GatheredSnoc(args, i);
        f := f + [item];
      }
      assert args[..|args|] == args;
    }

    /** The second pass of `Parse`, in place: each flag directly followed by plain text
        becomes a key/value item and the text's item is emptied. */
    static method Pair(f: array<FoundItem>)
      modifies f
      ensures f[..] == Paired(old(f[..]))
    {
      ghost var orig := f[..];
      for i := 0 to f.Length
        invariant forall k :: 0 <= k < f.Length ==> f[k] == PairedUpTo(orig, i, k)
      {
        if i > 0 {
          if !f[i].IsFlag {
            if f[i - 1].IsFlag {
              f[i - 1] := f[i - 1].(IsFlag := false, IsValue := true, Text := f[i].Tag);
              f[i] := f[i].(Tag := "");
            }
          }
        }
      }
    }

    /** The third pass of `Parse`: keeps the items with a name or text and files
        "Cannot parse item" for an emptied flag or key. */
    method Sift(p: seq<FoundItem>) returns (found: seq<FoundItem>)
      requires forall i :: 0 <= i < |p| ==> 0 <= p[i].Index < |Issues|
      modifies this
      ensures found == Kept(p)
      ensures Issues == Filed(old(Issues), SiftNotes(p))
      ensures HasIssues == (old(HasIssues) || SiftNotes(p) != [])
      ensures Flags == old(Flags) && Values == old(Values) && required == old(required)
      ensures args == old(args) && IsParsed == old(IsParsed)
      ensures help == old(help) && colWidth == old(colWidth) && flagsOrder == old(flagsOrder) && valuesOrder == old(valuesOrder)
    {
      found := [];
      assert p[..0] == [];
      FiledNone(old(Issues));
      for i := 0 to |p|
        invariant found == Kept(p[..i])
        invariant Issues == Filed(old(Issues), SiftNotes(p[..i]))
        invariant HasIssues == (old(HasIssues) || SiftNotes(p[..i]) != [])
        invariant Flags == old(Flags) && Values == old(Values) && required == old(required)
        invariant args == old(args) && IsParsed == old(IsParsed)
        invariant help == old(help) && colWidth == old(colWidth) && flagsOrder == old(flagsOrder) && valuesOrder == old(valuesOrder)
      {
        PrefixSnoc(p, i);
        var item := p[i];
        FiledMore(old(Issues), SiftNotes(p[..i]), SiftNote(item));
        if |item.Tag| > 0 {
          found := found + [item];
        } else if item.IsFlag || item.IsValue {
          AddIssue(item.Index, CannotParse);
        }
        assert SiftNotes(p[..i + 1]) == SiftNotes(p[..i]) + SiftNote(item);
      }
      assert p[..|p|] == p;
    }

    /** The fourth pass of `Parse`: files an issue for each kept item naming an
        undeclared flag or key, and for stray text. */
    method CheckFound(found: seq<FoundItem>)
      requires forall i :: 0 <= i < |found| ==> 0 <= found[i].Index < |Issues|
      modifies this
      ensures Issues == Filed(old(Issues), CheckNotes(found, Flags, Values))
      ensures HasIssues == (old(HasIssues) || CheckNotes(found, Flags, Values) != [])
      ensures Flags == old(Flags) && Values == old(Values) && required == old(required)
      ensures args == old(args) && IsParsed == old(IsParsed)
      ensures help == old(help) && colWidth == old(colWidth) && flagsOrder == old(flagsOrder) && valuesOrder == old(valuesOrder)
    {
      assert found[..0] == [];
      FiledNone(old(Issues));
      for i := 0 to |found|
        invariant Issues == Filed(old(Issues), CheckNotes(found[..i], Flags, Values))
        invariant HasIssues == (old(HasIssues) || CheckNotes(found[..i], Flags, Values) != [])
        invariant Flags == old(Flags) && Values == old(Values) && required == old(required)
        invariant args == old(args) && IsParsed == old(IsParsed)
        invariant help == old(help) && colWidth == old(colWidth) && flagsOrder == old(flagsOrder) && valuesOrder == old(valuesOrder)
      {
        PrefixSnoc(found, i);
        var item := found[i];
        ghost var notes := CheckNotes(found[..i], Flags, Values);
        FiledMore(old(Issues), notes, CheckNote(item, Flags, Values));
        CheckNotesSnoc(found[..i], item, Flags, Values);
        if item.IsFlag {
          if item.Tag !in Flags {
            AddIssue(item.Index, UnknownFlag(item.Tag));
          }
        } else if item.IsValue {
          if item.Tag !in Values {
            AddIssue(item.Index, UnknownItem(item.Tag));
          }
        } else {
          AddIssue(item.Index, UnexpectedText(item.Tag));
        }
      }
      assert found[..|found|] == found;
    }
  
    /** One turn of the fifth pass: the flag is set when a kept flag item names it, and a
        required flag that no item names files "Missing flag" under slot 0. */
    method VisitFlag(found: seq<FoundItem>, item: string)
      requires item in Flags && |Issues| >= 1
      modifies this
      ensures Flags == if item in GivenFlags(found) then old(Flags)[item := true] else old(Flags)
      ensures var missing := Required(required, item) && item !in GivenFlags(found);
        && |Issues| == |old(Issues)| && Issues[1..] == old(Issues)[1..]
        && Issues[0] == old(Issues)[0] + (if missing then [MissingFlag(item)] else [])
        && HasIssues == (old(HasIssues) || missing)
      ensures Values == old(Values) && required == old(required) && args == old(args) && IsParsed == old(IsParsed)
      ensures help == old(help) && colWidth == old(colWidth) && flagsOrder == old(flagsOrder) && valuesOrder == old(valuesOrder)
    {
      var isFound := false;
      for r := 0 to |found|
        invariant isFound == (item in GivenFlags(found[..r]))
        invariant Flags == if isFound then old(Flags)[item := true] else old(Flags)
        invariant Issues == old(Issues) && HasIssues == old(HasIssues)
        invariant Values == old(Values) && required == old(required) && args == old(args) && IsParsed == old(IsParsed)
        invariant help == old(help) && colWidth == old(colWidth) && flagsOrder == old(flagsOrder) && valuesOrder == old(valuesOrder)
      {
        PrefixSnoc(found, r);
        if found[r].IsFlag && found[r].Tag == item {
          isFound := true;
          Flags := Flags[item := true];
        }
      }
      assert found[..|found|] == found;
      if Required(required, item) && !isFound {
        AddIssue(0, MissingFlag(item));
        assert Issues[1..] == old(Issues)[1..];
      } else {
        assert Issues[0] + [] == Issues[0];
      }
    }

    /** One turn of the sixth pass: each kept key/value item naming the key overwrites its
        value, so the last one wins, and a required key that no item names files
        "Missing value" under slot 0. */
    method VisitValue(found: seq<FoundItem>, item: string)
      requires item in Values && |Issues| >= 1
      modifies this
      ensures Values == if item in GivenValues(found) then old(Values)[item := GivenValues(found)[item]] else old(Values)
      ensures var missing := Required(required, item) && item !in GivenValues(found);
        && |Issues| == |old(Issues)| && Issues[1..] == old(Issues)[1..]
        && Issues[0] == old(Issues)[0] + (if missing then [MissingValue(item)] else [])
        && HasIssues == (old(HasIssues) || missing)
      ensures Flags == old(Flags) && required == old(required) && args == old(args) && IsParsed == old(IsParsed)
      ensures help == old(help) && colWidth == old(colWidth) && flagsOrder == old(flagsOrder) && valuesOrder == old(valuesOrder)
    {
      var isFound := false;
      for r := 0 to |found|
        invariant isFound == (item in GivenValues(found[..r]))
        invariant Values == if isFound then old(Values)[item := GivenValues(found[..r])[item]] else old(Values)
        invariant Issues == old(Issues) && HasIssues == old(HasIssues)
        invariant Flags == old(Flags) && required == old(required) && args == old(args) && IsParsed == old(IsParsed)
        invariant help == old(help) && colWidth == old(colWidth) && flagsOrder == old(flagsOrder) && valuesOrder == old(valuesOrder)
      {
        PrefixSnoc(found, r);
        if found[r].IsValue && found[r].Tag == item {
          isFound := true;
          Values := Values[item := found[r].Text];
        }
      }
      assert found[..|found|] == found;
      if Required(required, item) && !isFound {
        AddIssue(0, MissingValue(item));
        assert Issues[1..] == old(Issues)[1..];
      } else {
        assert Issues[0] + [] == Issues[0];
      }
    }

    /** The fifth pass of `Parse`, over the declared flags in map order, which Go leaves
        unspecified and the model leaves open: a flag given among the kept items becomes
        true, and each required flag not given files "Missing flag" under slot 0, in
        whatever order the flags are visited. */
    method MarkFlags(found: seq<FoundItem>)
      requires |Issues| >= 1
      modifies this
      ensures Flags == Marked(old(Flags), found)
      ensures |Issues| == |old(Issues)| && Issues[1..] == old(Issues)[1..]
      ensures exists names ::
                && ListsMissingFlags(names, old(Flags).Keys, required, GivenFlags(found))
                && Issues[0] == old(Issues)[0] + MissingFlagMessages(names)
                && HasIssues == (old(HasIssues) || names != [])
      ensures Values == old(Values) && required == old(required) && args == old(args) && IsParsed == old(IsParsed)
      ensures help == old(help) && colWidth == old(colWidth) && flagsOrder == old(flagsOrder) && valuesOrder == old(valuesOrder)
    {
      ghost var flags0 := Flags;
      ghost var given := GivenFlags(found);
      var remaining := Flags.Keys;
      ghost var done: set<string> := {};
      ghost var missed: seq<string> := [];
      AmongNone(flags0, given, map[], map[]);
      while remaining != {}
        invariant remaining == flags0.Keys - done && done <= flags0.Keys
        invariant Flags == MarkedAmong(flags0, given, done)
        invariant |Issues| == |old(Issues)| && Issues[1..] == old(Issues)[1..]
        invariant ListsMissingFlags(missed, done, required, given)
        invariant Issues[0] == old(Issues)[0] + MissingFlagMessages(missed)
        invariant HasIssues == (old(HasIssues) || missed != [])
        invariant Values == old(Values) && required == old(required) && args == old(args) && IsParsed == old(IsParsed)
        invariant help == old(help) && colWidth == old(colWidth) && flagsOrder == old(flagsOrder) && valuesOrder == old(valuesOrder)
        decreases remaining
      {
        var item :| item in remaining;
        MarkedAmongStep(flags0, given, done, item);
        ListsMissingFlagsStep(missed, done, item, required, given);
        ghost var slots := Issues;
        VisitFlag(found, item);
        if Required(required, item) && item !in given {
          assert Issues[0] == old(Issues)[0] + (MissingFlagMessages(missed) + [MissingFlag(item)]);
          missed := missed + [item];
        }
        assert Issues[1..] == old(Issues)[1..] by {
          assert Issues[1..] == slots[1..];
        }
        remaining := remaining - {item};
        done := done + {item};
      }
      assert done == flags0.Keys;
    }

    /** The sixth pass of `Parse`, over the declared keys in map order: a key given among
        the kept items takes the text of its last occurrence, and each required key not
        given files "Missing value" under slot 0, in whatever order the keys are visited. */
    method TakeValues(found: seq<FoundItem>)
      requires |Issues| >= 1
      modifies this
      ensures Values == Taken(old(Values), found)
      ensures |Issues| == |old(Issues)| && Issues[1..] == old(Issues)[1..]
      ensures exists names ::
                && ListsMissingValues(names, old(Values).Keys, required, GivenValues(found))
                && Issues[0] == old(Issues)[0] + MissingValueMessages(names)
                && HasIssues == (old(HasIssues) || names != [])
      ensures Flags == old(Flags) && required == old(required) && args == old(args) && IsParsed == old(IsParsed)
      ensures help == old(help) && colWidth == old(colWidth) && flagsOrder == old(flagsOrder) && valuesOrder == old(valuesOrder)
    {
      ghost var values0 := Values;
      ghost var given := GivenValues(found);
      var remaining := Values.Keys;
      ghost var done: set<string> := {};
      ghost var missed: seq<string> := [];
      AmongNone(map[], {}, values0, given);
      while remaining != {}
        invariant remaining == values0.Keys - done && done <= values0.Keys
        invariant Values == TakenAmong(values0, given, done)
        invariant |Issues| == |old(Issues)| && Issues[1..] == old(Issues)[1..]
        invariant ListsMissingValues(missed, done, required, given)
        invariant Issues[0] == old(Issues)[0] + MissingValueMessages(missed)
        invariant HasIssues == (old(HasIssues) || missed != [])
        invariant Flags == old(Flags) && required == old(required) && args == old(args) && IsParsed == old(IsParsed)
        invariant help == old(help) && colWidth == old(colWidth) && flagsOrder == old(flagsOrder) && valuesOrder == old(valuesOrder)
        decreases remaining
      {
        var item :| item in remaining;
        TakenAmongStep(values0, given, done, item);
        ListsMissingValuesStep(missed, done, item, required, given);
        ghost var slots := Issues;
        VisitValue(found, item);
        if Required(required, item) && item !in given {
          assert Issues[0] == old(Issues)[0] + (MissingValueMessages(missed) + [MissingValue(item)]);
          missed := missed + [item];
        }
        assert Issues[1..] == old(Issues)[1..] by {
          assert Issues[1..] == slots[1..];
        }
        remaining := remaining - {item};
        done := done + {item};
      }
      assert done == values0.Keys;
    }

    /** The third and fourth passes of `Parse`: sifting, then checking the kept items
        against the declared names. */
    method CheckItems(p: seq<FoundItem>) returns (found: seq<FoundItem>)
      requires Numbered(p) && |Issues| == |p| + 1
      modifies this
      ensures found == Kept(p)
      ensures Issues == Filed(old(Issues), PositionNotes(p, Flags, Values))
      ensures HasIssues == (old(HasIssues) || PositionNotes(p, Flags, Values) != [])
      ensures Flags == old(Flags) && Values == old(Values) && required == old(required)
      ensures args == old(args) && IsParsed == old(IsParsed)
      ensures help == old(help) && colWidth == old(colWidth) && flagsOrder == old(flagsOrder) && valuesOrder == old(valuesOrder)
    {
      found := Sift(p);
      KeptFrom(p);
      forall i | 0 <= i < |found|
        ensures 0 <= found[i].Index < |Issues|
      {
        var j :| 0 <= j < |p| && p[j] == found[i];
      }
      CheckFound(found);
      FiledTwice(old(Issues), SiftNotes(p), CheckNotes(found, Flags, Values));
    }

    /** The fifth and sixth passes of `Parse`: the declared flags, then the declared keys. */
    method MarkAndTake(found: seq<FoundItem>)
      requires |Issues| >= 1
      modifies this
      ensures Flags == Marked(old(Flags), found) && Values == Taken(old(Values), found)
      ensures |Issues| == |old(Issues)| && Issues[1..] == old(Issues)[1..]
      ensures exists flagNames, valueNames ::
                && ListsMissingFlags(flagNames, old(Flags).Keys, required, GivenFlags(found))
                && ListsMissingValues(valueNames, old(Values).Keys, required, GivenValues(found))
                && Issues[0] == old(Issues)[0] + (MissingFlagMessages(flagNames) + MissingValueMessages(valueNames))
                && HasIssues == (old(HasIssues) || flagNames != [] || valueNames != [])
      ensures required == old(required) && args == old(args) && IsParsed == old(IsParsed)
      ensures help == old(help) && colWidth == old(colWidth) && flagsOrder == old(flagsOrder) && valuesOrder == old(valuesOrder)
    {
      ghost var values0 := Values;
      MarkFlags(found);
      ghost var flagNames :| && ListsMissingFlags(flagNames, old(Flags).Keys, required, GivenFlags(found))
                             && Issues[0] == old(Issues)[0] + MissingFlagMessages(flagNames)
                             && HasIssues == (old(HasIssues) || flagNames != []);
      ghost var marked := Issues;
      ghost var flags1 := Flags;
      TakeValues(found);
      ghost var valueNames :| && ListsMissingValues(valueNames, values0.Keys, required, GivenValues(found))
                              && Issues[0] == marked[0] + MissingValueMessages(valueNames)
                              && HasIssues == (old(HasIssues) || flagNames != [] || valueNames != []);
      assert Flags == flags1;
      assert Issues[1..] == marked[1..];
      assert Issues[0] == old(Issues)[0] + (MissingFlagMessages(flagNames) + MissingValueMessages(valueNames));
    }

    /** `Parse`: runs once. The arguments are gathered, paired and sifted; each one then
        gets under its own slot the issue it earns against the declared names, slot 0
        gets the missing required flags and then the missing required keys, and the
        given flags and keys take their values. `HasIssues` is set exactly when
        something was filed. */
    method Parse()
      requires Valid()
      modifies this
      ensures IsParsed && Valid()
      ensures required == old(required) && args == old(args)
      ensures help == old(help) && colWidth == old(colWidth) && flagsOrder == old(flagsOrder) && valuesOrder == old(valuesOrder)
      ensures old(IsParsed) ==>
                Flags == old(Flags) && Values == old(Values) && Issues == old(Issues) && HasIssues == old(HasIssues)
      ensures !old(IsParsed) ==> Flags == Marked(old(Flags), Found(args)) && Values == Taken(old(Values), Found(args))
      ensures !old(IsParsed) ==>
                forall k :: 0 <= k < |args| ==>
                  Issues[k + 1] == old(Issues)[k + 1] + IssueOf(Items(args)[k], old(Flags), old(Values))
      ensures !old(IsParsed) ==>
                exists flagNames, valueNames ::
                  && ListsMissingFlags(flagNames, old(Flags).Keys, required, GivenFlags(Found(args)))
                  && ListsMissingValues(valueNames, old(Values).Keys, required, GivenValues(Found(args)))
                  && Issues[0] == old(Issues)[0] + (MissingFlagMessages(flagNames) + MissingValueMessages(valueNames))
      ensures HasIssues == (old(HasIssues) || Issues != old(Issues))
    {
      if IsParsed {
        return;
      }
      IsParsed := true;
      var f := Gather();
      var items := new FoundItem[|f|](i requires 0 <= i < |f| => f[i]);
      assert items[..] == f;
      Pair(items);
      var p := items[..];
      assert p == Items(args);
      ItemsNumbered(args);
      ghost var notes := PositionNotes(p, Flags, Values);
      PositionNotesInSlots(p, Flags, Values);
      var found := CheckItems(p);
      ghost var checked := Issues;
      MarkAndTake(found);
      ghost var flagNames, valueNames :|
        && ListsMissingFlags(flagNames, old(Flags).Keys, required, GivenFlags(found))
        && ListsMissingValues(valueNames, old(Values).Keys, required, GivenValues(found))
        && Issues[0] == checked[0] + (MissingFlagMessages(flagNames) + MissingValueMessages(valueNames))
        && HasIssues == (old(HasIssues) || notes != [] || flagNames != [] || valueNames != []);
      ghost var extra := MissingFlagMessages(flagNames) + MissingValueMessages(valueNames);
      ParsedSlots(old(Issues), p, old(Flags), old(Values), Issues, extra);
      SlotsChange(old(Issues), notes, Issues, extra);
      assert MissingFlagMessages(flagNames) + MissingValueMessages(valueNames) == [] <==> flagNames == [] && valueNames == [];
    }
  }
}
