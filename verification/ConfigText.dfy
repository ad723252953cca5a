/** The text of a .config file (scripts/config/confdata.c, scripts/config/symbol.c): what is
    written for a list of symbols, what each line of a text means to the reader, and that
    reading restores what was written. */
module ConfigText {
  import opened Common
  import opened Expressions

  const PREFIX: string := "CONFIG_"
  const NUL: char := 0 as char

  // ----- strings as C sees them -----

  function Index(s: string, c: char): (i: nat)
    ensures i <= |s| && c !in s[..i] && (i < |s| ==> s[i] == c)
  {
    if s == "" || s[0] == c then 0
    else
      var j := Index(s[1..], c);
      assert s[..j + 1] == [s[0]] + s[1..][..j];
      j + 1
  }

  /** The string that starts at the first byte and ends before the first NUL. */
  function CString(s: seq<char>): string { s[..Index(s, NUL)] }

  lemma Before(s: string, c: char, i: nat)
    requires i <= |s| && c !in s[..i]
    ensures forall k :: 0 <= k < i ==> s[k] != c
  {
    forall k | 0 <= k < i
      ensures s[k] != c
    {
      assert s[..i][k] == s[k];
    }
  }

  lemma IndexUnique(s: string, c: char, i: nat)
    requires i < |s| && s[i] == c && c !in s[..i]
    ensures Index(s, c) == i
  {
    var j := Index(s, c);
    Before(s, c, i);
    Before(s, c, j);
  }

  /** A character is found right behind a text without it. */
  lemma IndexAfter(a: string, c: char, b: string)
    requires c !in a
    ensures var s := a + [c] + b;
            Index(s, c) == |a| && s[..|a|] == a && s[|a| + 1..] == b
  {
    var s := a + [c] + b;
    assert s[..|a|] == a;
    IndexUnique(s, c, |a|);
  }

  lemma IndexNone(s: string, c: char)
    requires c !in s
    ensures Index(s, c) == |s|
  {
  }

  predicate StartsWith(s: string, p: string) { p <= s }

  // ----- quoting -----

  predicate Special(c: char) { c == '"' || c == '\\' }

  /** Every quote and backslash gets a backslash. */
  function Escape(s: string): string
  {
    if s == "" then "" else (if Special(s[0]) then ['\\', s[0]] else [s[0]]) + Escape(s[1..])
  }

  function Quoted(s: string): string { "\"" + Escape(s) + "\"" }

  /** What follows an opening quote: the characters up to the closing one, with a backslash
      removed wherever it protects the next character. None if there is no closing quote. */
  function Unquote(s: string): Option<string>
  {
    if s == "" then None
    else if s[0] == '"' then Some("")
    else if s[0] == '\\' then
      if |s| == 1 then None else Prepend([s[1]], Unquote(s[2..]))
    else Prepend([s[0]], Unquote(s[1..]))
  }

  function Prepend(s: string, o: Option<string>): Option<string>
  {
    if o.Some? then Some(s + o.value) else None
  }

  lemma UnquoteOne(c: char, rest: string)
    ensures Unquote((if Special(c) then ['\\', c] else [c]) + rest) == Prepend([c], Unquote(rest))
  {
    if Special(c) {
      assert (['\\', c] + rest)[2..] == rest;
    } else {
      assert ([c] + rest)[1..] == rest;
    }
  }

  lemma PrependTwice(a: string, b: string, o: Option<string>)
    ensures Prepend(a, Prepend(b, o)) == Prepend(a + b, o) && Prepend("", o) == o
  {
    if o.Some? {
      assert a + (b + o.value) == (a + b) + o.value;
      assert "" + o.value == o.value;
    }
  }

  lemma {:induction false} UnquoteEscape(s: string, rest: string)
    ensures Unquote(Escape(s) + rest) == Prepend(s, Unquote(rest))
    decreases |s|
  {
    hide Unquote, Prepend;
    PrependTwice(if s == "" then "" else [s[0]], if s == "" then "" else s[1..], Unquote(rest));
    if s == "" {
      assert Escape(s) + rest == rest;
    } else {
      var head := if Special(s[0]) then ['\\', s[0]] else [s[0]];
      UnquoteEscape(s[1..], rest);
      UnquoteOne(s[0], Escape(s[1..]) + rest);
      assert Escape(s) + rest == head + (Escape(s[1..]) + rest);
      assert [s[0]] + s[1..] == s;
    }
  }

  /** Reading a quoted string gives the string back. */
  lemma UnquoteQuoted(s: string)
    ensures Unquote(Quoted(s)[1..]) == Some(s)
  {
    assert Quoted(s)[1..] == Escape(s) + "\"";
    UnquoteEscape(s, "\"");
    assert s + "" == s;
  }

  /** Different strings are never written alike. */
  lemma QuotedInjective(s: string, t: string)
    requires Quoted(s) == Quoted(t)
    ensures s == t
  {
    UnquoteQuoted(s);
    UnquoteQuoted(t);
  }

  lemma {:induction false} EscapeFree(s: string, c: char)
    requires c !in s && c != '\\'
    ensures c !in Escape(s)
  {
    if s != "" {
      EscapeFree(s[1..], c);
    }
  }

  // ----- lines -----

  /** The first line, with its newline unless the text ends without one. */
  function FirstLine(text: string): (l: string)
    ensures l <= text && (text != "" ==> l != "")
  {
    var i := Index(text, '\n');
    if i < |text| then text[..i + 1] else text
  }

  function Lines(text: string): seq<string>
    decreases |text|
  {
    if text == "" then [] else var l := FirstLine(text); [l] + Lines(text[|l|..])
  }

  function Concat(ls: seq<string>): string
  {
    if ls == [] then "" else ls[0] + Concat(ls[1..])
  }

  /** A newline ends a line, and only the last line may end without one. */
  ghost predicate IsLine(l: string, last: bool)
  {
    l != "" && '\n' !in l[..|l| - 1] && (l[|l| - 1] == '\n' || last)
  }

  /** The lines of a text are a partition of it. */
  lemma {:induction false} LinesPartition(text: string)
    ensures var ls := Lines(text);
            Concat(ls) == text && forall i :: 0 <= i < |ls| ==> IsLine(ls[i], i == |ls| - 1)
    decreases |text|
  {
    if text != "" {
      var l := FirstLine(text);
      var ls := Lines(text);
      LinesPartition(text[|l|..]);
      assert ls[1..] == Lines(text[|l|..]);
      var i := Index(text, '\n');
      if i < |text| {
        assert l[..|l| - 1] == text[..i];
      } else {
        assert text[..i] == text;
        assert '\n' !in l[..|l| - 1];
        assert text[|l|..] == "";
      }
      assert IsLine(l, |ls| == 1);
      forall k | 0 <= k < |ls|
        ensures IsLine(ls[k], k == |ls| - 1)
      {
        if k > 0 {
          assert ls[k] == ls[1..][k - 1];
        }
      }
    }
  }

  lemma FirstLineOf(l: string, rest: string)
    requires IsLine(l, false)
    ensures FirstLine(l + rest) == l && (l + rest)[|l|..] == rest
  {
    assert (l + rest)[..|l| - 1] == l[..|l| - 1];
    IndexUnique(l + rest, '\n', |l| - 1);
  }

  // ----- symbols -----

  /** What the reader keeps about a symbol: its type, and the user's value if there is one. */
  datatype Entry = Entry(kind: SymType, tri: Tristate, val: Option<string>, known: bool)

  /** The symbols by name, and how often a name was unknown. */
  datatype State = State(table: map<string, Entry>, changes: nat)

  predicate Logic(k: SymType) { k == Boolean || k == Tri }

  /** conf_reset: no symbol has a user's value. */
  function Reset(s: State): State
  {
    s.(table := map n | n in s.table :: s.table[n].(tri := NO, val := None, known := false))
  }

  predicate Digit(c: char) { '0' <= c <= '9' }

  predicate HexDigit(c: char) { Digit(c) || 'a' <= c <= 'f' || 'A' <= c <= 'F' }

  /** A number without its sign. */
  function WithoutSign(s: string): string { if s != "" && s[0] == '-' then s[1..] else s }

  /** A hexadecimal number without its prefix. */
  function WithoutPrefix(s: string): string
  {
    if |s| >= 2 && s[0] == '0' && (s[1] == 'x' || s[1] == 'X') then s[2..] else s
  }

  predicate ValidInt(s: string)
  {
    var d := WithoutSign(s);
    && d != "" && (forall i :: 0 <= i < |d| ==> Digit(d[i]))
    && (d[0] == '0' ==> |d| == 1)
  }

  predicate ValidHex(s: string)
  {
    var d := WithoutPrefix(s);
    d != "" && forall i :: 0 <= i < |d| ==> HexDigit(d[i])
  }

  predicate ValidText(k: SymType, s: string)
  {
    match k
    case Str => true
    case Int => ValidInt(s)
    case Hex => ValidHex(s)
    case _ => false
  }

  // ----- reading -----

  datatype Meaning = Nothing | Unset(name: string) | Assign(name: string, text: string)

  /** What one line says. The prefix is compared byte by byte, everything behind it is a C string. */
  function MeaningOf(line: string): Meaning
  {
    if line != "" && line[0] == '#' then
      if |line| >= 2 then Comment(line[2..]) else Nothing
    else if StartsWith(line, PREFIX) then AssignOf(CString(line[|PREFIX|..]))
    else Nothing
  }

  /** What a comment says, from the byte behind its hash and a blank on. */
  function Comment(rest: seq<char>): (m: Meaning)
    ensures !m.Assign?
  {
    if StartsWith(rest, PREFIX) then UnsetOf(CString(rest[|PREFIX|..])) else Nothing
  }

  function UnsetOf(rest: string): (m: Meaning)
    ensures !m.Assign?
  {
    var i := Index(rest, ' ');
    if i < |rest| && StartsWith(rest[i + 1..], "is not set") then Unset(rest[..i]) else Nothing
  }

  function AssignOf(rest: string): Meaning
  {
    var i := Index(rest, '=');
    if i < |rest| then Assign(rest[..i], Chomp(rest[i + 1..])) else Nothing
  }

  /** The text up to the newline, without the carriage return before it. */
  function Chomp(p: string): string
  {
    var i := Index(p, '\n');
    if i < |p| && i > 0 && p[i - 1] == '\r' then p[..i - 1] else p[..i]
  }

  /** conf_set_sym_val; a value that does not suit the type changes nothing. */
  function SetValue(e: Entry, p: string): Entry
  {
    match e.kind
    case Tri =>
      if p != "" && p[0] == 'm' then e.(tri := MOD, known := true) else SetBoolean(e, p)
    case Boolean => SetBoolean(e, p)
    case Str =>
      if p == "" || p[0] != '"' then e
      else
        var v := Unquote(p[1..]);
        if v.Some? then e.(val := v, known := true) else e
    case Unknown => e
    case Other =>
      // a bare word turns the symbol into a string; a quoted text is never valid for it
      if p == "" || p[0] != '"' then e.(kind := Str, val := Some(p), known := true) else e
    case _ => if ValidText(e.kind, p) then e.(val := Some(p), known := true) else e
  }

  function SetBoolean(e: Entry, p: string): Entry
  {
    if p != "" && p[0] == 'y' then e.(tri := YES, known := true)
    else if p != "" && p[0] == 'n' then e.(tri := NO, known := true)
    else e
  }

  /** The names of the constants find the constants, which have no type. */
  predicate ConstantName(n: string) { n == "y" || n == "m" || n == "n" }

  function Apply(s: State, m: Meaning): State
  {
    if m.Nothing? || ConstantName(m.name) then s
    else if m.name !in s.table then s.(changes := s.changes + 1)
    else
      var e := s.table[m.name];
      var e' := if m.Unset? then (if Logic(e.kind) then e.(tri := NO, known := true) else e) else SetValue(e, m.text);
      s.(table := s.table[m.name := e'])
  }

  function ReadLines(s: State, text: string): State
    decreases |text|
  {
    if text == "" then s
    else
      var l := FirstLine(text);
      ReadLines(Apply(s, MeaningOf(l)), text[|l|..])
  }

  /** conf_read_simple: everything is reset, and then every line takes effect in turn. */
  function Read(s: State, text: string): State { ReadLines(Reset(s), text) }

  // ----- writing -----

  /** One symbol to write: what sym_get_string_value gives for it. */
  datatype Setting = Setting(name: string, kind: SymType, value: string)

  /** conf_write_symbol with the printer for .config files. */
  function SettingText(t: Setting): string
  {
    match t.kind
    case Other => ""
    case Unknown => ""
    case Str => PREFIX + t.name + "=" + Quoted(t.value) + "\n"
    case _ =>
      if Logic(t.kind) && t.value != "" && t.value[0] == 'n' then "# " + PREFIX + t.name + " is not set\n"
      else PREFIX + t.name + "=" + t.value + "\n"
  }

  /** What conf_write prints for a visible menu without symbol. */
  function TitleText(title: string): string { "\n#\n# " + title + "\n#\n" }

  /** kconfig_print_comment: every line of the value behind a hash and, unless it is empty, a
      blank. */
  function CommentText(v: string): string
    decreases |v|
  {
    var i := Index(v, '\n');
    var line := "#" + (if i > 0 then " " + v[..i] else "") + "\n";
    if i < |v| then line + CommentText(v[i + 1..]) else line
  }

  const GENERATED := "Automatically generated file; DO NOT EDIT."

  /** What snprintf leaves of a text in a buffer of n + 1 bytes. */
  function Truncated(v: string, n: nat): string { if |v| <= n then v else v[..n] }

  /** conf_write_heading, with the title of the main menu. */
  function Heading(title: string): string
  {
    CommentText(Truncated("\n" + GENERATED + "\n" + title + "\n", 255))
  }

  datatype Item = Title(title: string) | Value(setting: Setting)

  function ItemText(i: Item): string { if i.Title? then TitleText(i.title) else SettingText(i.setting) }

  function ItemsText(items: seq<Item>): string
  {
    if items == [] then "" else ItemText(items[0]) + ItemsText(items[1..])
  }

  function ConfigFile(title: string, items: seq<Item>): string { Heading(title) + ItemsText(items) }

  // ----- reading what was written -----

  /** The names Kconfig gives to symbols. */
  predicate Name(n: string)
  {
    && n != "" && !ConstantName(n)
    && forall i :: 0 <= i < |n| ==> Digit(n[i]) || 'a' <= n[i] <= 'z' || 'A' <= n[i] <= 'Z' || n[i] == '_'
  }

  /** What sym_get_string_value can give for a symbol of the type. Any other value than a truth value
      is a C string: without NUL. A number need not be one: a symbol without a value has none. */
  predicate Suits(k: SymType, v: string)
  {
    match k
    case Boolean => v == "y" || v == "n"
    case Tri => v == "y" || v == "m" || v == "n"
    case Str | Int | Hex => NUL !in v
    case _ => false
  }

  /** A title in one line, as the parser delivers it. */
  predicate OneLine(title: string) { '\n' !in title && NUL !in title }

  /** A title that does not look like the name of a symbol that is not set. */
  predicate Harmless(title: string)
  {
    StartsWith(title, PREFIX) ==> var m := UnsetOf(title[|PREFIX|..]); m.Unset? ==> ConstantName(m.name)
  }

  predicate Plain(title: string) { OneLine(title) && Harmless(title) }

  ghost predicate Writable(table: map<string, Entry>, i: Item)
  {
    if i.Title? then Plain(i.title)
    else
      var t := i.setting;
      Name(t.name) && t.name in table && table[t.name].kind == t.kind && Suits(t.kind, t.value)
  }

  /** The entry of a symbol whose value has just been read. What is no number is not stored for one. */
  function Stored(e: Entry, v: string): Entry
  {
    if Logic(e.kind) then e.(tri := if v == "y" then YES else if v == "m" then MOD else NO, known := true)
    else if e.kind == Str then e.(val := Some(v), known := true)
    else SetValue(e, WithoutReturn(v))
  }

  /** A carriage return at the end belongs to the end of the line. */
  function WithoutReturn(v: string): string
  {
    if v != "" && v[|v| - 1] == '\r' then v[..|v| - 1] else v
  }

  function StoreAll(table: map<string, Entry>, items: seq<Item>): map<string, Entry>
  {
    if items == [] then table
    else if items[0].Title? || items[0].setting.name !in table then StoreAll(table, items[1..])
    else
      var t := items[0].setting;
      StoreAll(table[t.name := Stored(table[t.name], t.value)], items[1..])
  }

  lemma ReadLine(s: State, l: string, rest: string)
    requires IsLine(l, false)
    ensures ReadLines(s, l + rest) == ReadLines(Apply(s, MeaningOf(l)), rest)
  {
    FirstLineOf(l, rest);
  }

  /** The line of a value. */
  lemma AssignLine(n: string, v: string)
    requires Name(n) && '\n' !in v && NUL !in v
    ensures MeaningOf(PREFIX + n + "=" + v + "\n") == Assign(n, WithoutReturn(v))
  {
    hide MeaningOf, AssignOf;
    var rest := n + ['='] + (v + "\n");
    assert PREFIX + n + "=" + v + "\n" == PREFIX + rest;
    Prefixed(rest);
    AssignRest(n, v);
  }

  lemma AssignRest(n: string, v: string)
    requires Name(n) && '\n' !in v
    ensures AssignOf(n + ['='] + (v + "\n")) == Assign(n, WithoutReturn(v))
  {
    hide Index;
    IndexAfter(n, '=', v + "\n");
    IndexAfter(v, '\n', "");
    assert v + ['\n'] + "" == v + "\n";
  }

  lemma Prefixed(rest: string)
    requires NUL !in rest
    ensures MeaningOf(PREFIX + rest) == AssignOf(rest)
    ensures MeaningOf("# " + PREFIX + rest) == UnsetOf(rest)
  {
    var l := PREFIX + rest;
    assert l[0] == 'C' && l[|PREFIX|..] == rest;
    var m := "# " + PREFIX + rest;
    assert m[0] == '#' && m[2..] == l && m[2 + |PREFIX|..] == rest;
    IndexNone(rest, NUL);
    assert rest[..|rest|] == rest;
  }

  lemma UnsetLine(n: string)
    requires Name(n)
    ensures MeaningOf("# " + PREFIX + n + " is not set\n") == Unset(n)
  {
    hide MeaningOf, UnsetOf;
    var tail := "is not set\n";
    var rest := n + [' '] + tail;
    assert "# " + PREFIX + n + " is not set\n" == "# " + PREFIX + rest;
    Prefixed(rest);
    UnsetRest(n, tail);
  }

  lemma UnsetRest(n: string, tail: string)
    requires ' ' !in n && "is not set" <= tail
    ensures UnsetOf(n + [' '] + tail) == Unset(n)
  {
    hide Index;
    IndexAfter(n, ' ', tail);
  }

  lemma ValidIntPlain(v: string)
    requires ValidInt(v)
    ensures '\n' !in v && WithoutReturn(v) == v
  {
    var d := if v[0] == '-' then v[1..] else v;
    assert forall i :: 0 <= i < |v| ==> v[i] == '-' || Digit(v[i]) by {
      forall i | 0 <= i < |v|
        ensures v[i] == '-' || Digit(v[i])
      {
        if v[0] == '-' && i > 0 { assert v[i] == d[i - 1]; } else if v[0] != '-' { assert v[i] == d[i]; }
      }
    }
  }

  lemma ValidHexPlain(v: string)
    requires ValidHex(v)
    ensures '\n' !in v && WithoutReturn(v) == v
  {
    var p := |v| >= 2 && v[0] == '0' && (v[1] == 'x' || v[1] == 'X');
    var d := if p then v[2..] else v;
    assert forall i :: 0 <= i < |v| ==> v[i] == 'x' || v[i] == 'X' || HexDigit(v[i]) by {
      forall i | 0 <= i < |v|
        ensures v[i] == 'x' || v[i] == 'X' || HexDigit(v[i])
      {
        if p && i >= 2 { assert v[i] == d[i - 2]; } else if !p { assert v[i] == d[i]; }
      }
    }
  }

  /** What stands behind the equals sign. */
  function Shown(t: Setting): string { if t.kind == Str then Quoted(t.value) else t.value }

  lemma ShownPlain(t: Setting)
    requires Suits(t.kind, t.value) && '\n' !in t.value
    ensures var v := Shown(t);
            NUL !in v && '\n' !in v && (t.kind == Str || Logic(t.kind) ==> WithoutReturn(v) == v != "")
  {
    if t.kind == Str {
      EscapeFree(t.value, NUL);
      EscapeFree(t.value, '\n');
    }
  }

  /** One setting, written and read back. */
  lemma ReadSetting(s: State, t: Setting, rest: string)
    requires Name(t.name) && t.name in s.table && s.table[t.name].kind == t.kind
    requires Suits(t.kind, t.value) && '\n' !in t.value
    ensures ReadLines(s, SettingText(t) + rest) ==
            ReadLines(s.(table := s.table[t.name := Stored(s.table[t.name], t.value)]), rest)
  {
    hide ReadLines, MeaningOf, Quoted, ValidInt, ValidHex;
    var l := SettingText(t);
    ShownPlain(t);
    NamePlain(t.name);
    if Logic(t.kind) && t.value[0] == 'n' {
      UnsetLine(t.name);
    } else {
      AssignLine(t.name, Shown(t));
      if t.kind == Str {
        UnquoteQuoted(t.value);
        QuotedOpen(t.value);
      }
    }
    ReadLine(s, l, rest);
  }

  lemma QuotedOpen(v: string)
    ensures Quoted(v) != "" && Quoted(v)[0] == '"'
  {
  }

  lemma NamePlain(n: string)
    requires Name(n)
    ensures NUL !in n && '\n' !in n
  {
  }

  lemma SilentLine(s: State, l: string, rest: string)
    requires IsLine(l, false) && MeaningOf(l).Nothing?
    ensures ReadLines(s, l + rest) == ReadLines(s, rest)
  {
    ReadLine(s, l, rest);
  }

  lemma UnsetOfLine(t: string)
    requires OneLine(t)
    ensures UnsetOf(t + "\n") == UnsetOf(t) && CString(t + "\n") == t + "\n"
  {
    var l := t + "\n";
    IndexNone(l, NUL);
    assert l[..|l|] == l;
    var i := Index(t, ' ');
    var (phrase, tail) := ("is not set", if i < |t| then t[i + 1..] else "");
    if i < |t| {
      assert l[..i] == t[..i];
      IndexUnique(l, ' ', i);
      assert l[i + 1..] == tail + "\n";
      PhraseLine(tail, phrase);
    } else {
      assert t[..|t|] == t;
      IndexNone(l, ' ');
    }
  }

  lemma PhraseLine(t: string, phrase: string)
    requires '\n' !in phrase
    ensures StartsWith(t + "\n", phrase) <==> StartsWith(t, phrase)
  {
    var l := t + "\n";
    if |t| < |phrase| {
      assert l[|t|] == '\n' && phrase[|t|] in phrase;
    } else {
      assert l[..|phrase|] == t[..|phrase|];
    }
  }

  /** What the reader makes of a title behind a hash. */
  lemma TitleMeaning(title: string)
    requires OneLine(title)
    ensures IsLine("# " + title + "\n", false)
    ensures MeaningOf("# " + title + "\n") ==
            if StartsWith(title, PREFIX) then UnsetOf(title[|PREFIX|..]) else Nothing
  {
    hide UnsetOf, CString;
    var l := "# " + title + "\n";
    assert l[2..] == title + "\n" && l[..|l| - 1] == "# " + title;
    PhraseLine(title, PREFIX);
    if StartsWith(title, PREFIX) {
      var t := title[|PREFIX|..];
      assert l[2 + |PREFIX|..] == t + "\n";
      UnsetOfLine(t);
    }
  }

  /** Titles are comments to the reader. */
  lemma ReadTitleLine(s: State, title: string, rest: string)
    requires Plain(title)
    ensures ReadLines(s, "# " + title + "\n" + rest) == ReadLines(s, rest)
  {
    hide ReadLines, MeaningOf, UnsetOf;
    TitleMeaning(title);
    AppliedNothing(s, MeaningOf("# " + title + "\n"));
    ReadLine(s, "# " + title + "\n", rest);
  }

  /** Every line of a comment is a harmless title. */
  predicate PlainLines(v: string)
    decreases |v|
  {
    var i := Index(v, '\n');
    Plain(v[..i]) && (i < |v| ==> PlainLines(v[i + 1..]))
  }

  lemma {:induction false} ReadComment(s: State, v: string, rest: string)
    requires PlainLines(v)
    ensures ReadLines(s, CommentText(v) + rest) == ReadLines(s, rest)
    decreases |v|
  {
    hide ReadLines, MeaningOf, Plain, Index;
    var i := Index(v, '\n');
    var line := "#" + (if i > 0 then " " + v[..i] else "") + "\n";
    var more := (if i < |v| then CommentText(v[i + 1..]) else "") + rest;
    assert CommentText(v) + rest == line + more;
    if i > 0 {
      assert line == "# " + v[..i] + "\n";
      ReadTitleLine(s, v[..i], more);
    } else {
      assert line == "#\n";
      HashSilent();
      SilentLine(s, line, more);
    }
    if i < |v| {
      ReadComment(s, v[i + 1..], rest);
    } else {
      assert more == rest;
    }
  }

  lemma HashSilent()
    ensures MeaningOf("#\n").Nothing? && MeaningOf("\n").Nothing?
  {
  }

  /** A title stays harmless when it is cut off. */
  lemma PlainPrefix(title: string, n: nat)
    requires Plain(title) && n <= |title|
    ensures Plain(title[..n])
  {
    var t := title[..n];
    if StartsWith(t, PREFIX) {
      assert title[..|PREFIX|] == t[..|PREFIX|];
      var (a, b) := (title[|PREFIX|..], t[|PREFIX|..]);
      assert b == a[..|b|];
      if UnsetOf(b).Unset? { UnsetOfPrefix(a, |b|); }
    }
  }

  lemma UnsetOfPrefix(t: string, n: nat)
    requires n <= |t| && UnsetOf(t[..n]).Unset?
    ensures UnsetOf(t) == UnsetOf(t[..n])
  {
    var i := Index(t[..n], ' ');
    assert t[..i] == t[..n][..i];
    IndexUnique(t, ' ', i);
    var phrase := "is not set";
    assert t[..n][i + 1..][..|phrase|] == t[i + 1..][..|phrase|];
  }

  lemma OneMore(line: string, v: string)
    requires OneLine(line)
    ensures PlainLines(line + "\n" + v) <==> Plain(line) && PlainLines(v)
    ensures PlainLines(line) <==> Plain(line)
  {
    IndexAfter(line, '\n', v);
    IndexNone(line, '\n');
    assert line[..|line|] == line && line + ['\n'] + v == line + "\n" + v;
  }

  lemma GeneratedPlain()
    ensures OneLine(GENERATED) && Plain(GENERATED) && Plain("") && |GENERATED| == 42
  {
    hide OneLine, UnsetOf, StartsWith;
    GeneratedLine(GENERATED);
    NotPrefixed(GENERATED);
    NotPrefixed("");
    EmptyLine();
  }

  lemma GeneratedLine(s: string)
    requires s == GENERATED
    ensures |s| == 42 && s[0] == 'A' && OneLine(s)
  {
    assert forall i :: 0 <= i < 42 ==> s[i] >= ' ';
  }

  lemma EmptyLine()
    ensures OneLine("")
  {
  }

  lemma NotPrefixed(title: string)
    requires title == "" || title[0] != PREFIX[0]
    ensures !StartsWith(title, PREFIX)
  {
  }

  /** The heading is a comment if its title is. */
  lemma ReadHeading(s: State, title: string, rest: string)
    requires Plain(title)
    ensures ReadLines(s, Heading(title) + rest) == ReadLines(s, rest)
  {
    hide ReadLines, PlainLines, CommentText, Harmless;
    GeneratedPlain();
    var n := if |title| <= 210 then |title| else 211;
    var (front, back) := ("\n" + GENERATED + "\n", if n < 211 then title + "\n" else title[..211]);
    assert Truncated(front + title + "\n", 255) == front + back;
    if n < 211 {
      OneMore(title, "");
      OneMore("", "");
      assert title + "\n" + "" == back;
    } else {
      PlainPrefix(title, 211);
      OneMore(title[..211], "");
    }
    OneMore(GENERATED, back);
    OneMore("", GENERATED + "\n" + back);
    assert "" + "\n" + (GENERATED + "\n" + back) == front + back;
    ReadComment(s, front + back, rest);
  }

  /** A title in one line changes nothing that the reader knows, in any configuration, exactly if it
      is harmless. */
  lemma TitleExact(title: string)
    requires OneLine(title)
    ensures (forall s: State :: ReadLines(s, TitleText(title)) == s) <==> Harmless(title)
  {
    hide ReadLines, MeaningOf, UnsetOf, Apply;
    TitleMeaning(title);
    HashSilent();
    var l := "# " + title + "\n";
    assert TitleText(title) == "\n" + ("#\n" + (l + ("#\n" + "")));
    var m := MeaningOf(l);
    forall s: State
      ensures ReadLines(s, TitleText(title)) == Apply(s, m)
      ensures m.Nothing? || ConstantName(m.name) ==> Apply(s, m) == s
    {
      SilentLine(s, "\n", "#\n" + (l + ("#\n" + "")));
      SilentLine(s, "#\n", l + ("#\n" + ""));
      ReadLine(s, l, "#\n" + "");
      SilentLine(Apply(s, MeaningOf(l)), "#\n", "");
      NothingRead(Apply(s, MeaningOf(l)));
      AppliedNothing(s, MeaningOf(l));
    }
    AppliedUnknown(m);
    var s0 := State(map[], 0);
    assert ReadLines(s0, TitleText(title)) == Apply(s0, m);
  }

  /** A line that is not without meaning is noticed where its symbol is unknown. */
  lemma AppliedUnknown(m: Meaning)
    ensures m.Nothing? || ConstantName(m.name) || Apply(State(map[], 0), m) == State(map[], 1)
  {
  }

  lemma NothingRead(s: State)
    ensures ReadLines(s, "") == s
  {
  }

  lemma AppliedNothing(s: State, m: Meaning)
    ensures m.Nothing? || ConstantName(m.name) ==> Apply(s, m) == s
  {
  }

  /** All that is written for the title of a menu. */
  lemma ReadTitle(s: State, title: string, rest: string)
    requires Plain(title)
    ensures ReadLines(s, TitleText(title) + rest) == ReadLines(s, rest)
  {
    hide ReadLines, MeaningOf;
    var l := "# " + title + "\n";
    assert TitleText(title) + rest == "\n" + ("#\n" + (l + ("#\n" + rest)));
    HashSilent();
    SilentLine(s, "\n", "#\n" + (l + ("#\n" + rest)));
    SilentLine(s, "#\n", l + ("#\n" + rest));
    ReadTitleLine(s, title, "#\n" + rest);
    SilentLine(s, "#\n", rest);
  }

  /** One item, written and read back. */
  lemma ReadItem(s: State, i: Item, rest: string)
    requires Writable(s.table, i) && (i.Value? ==> '\n' !in i.setting.value)
    ensures ReadLines(s, ItemText(i) + rest) == ReadLines(s.(table := StoreAll(s.table, [i])), rest)
  {
    hide ReadLines, MeaningOf, SettingText;
    assert [i][1..] == [];
    if i.Title? {
      ReadTitle(s, i.title, rest);
    } else {
      ReadSetting(s, i.setting, rest);
    }
  }

  /** Storing leaves the names and types of symbols alone. */
  lemma StoreKinds(table: map<string, Entry>, i: Item)
    requires Writable(table, i)
    ensures var table' := StoreAll(table, [i]);
            table'.Keys == table.Keys && forall n :: n in table ==> table'[n].kind == table[n].kind
  {
    assert [i][1..] == [];
  }

  lemma StoreSplit(table: map<string, Entry>, items: seq<Item>)
    requires items != []
    ensures StoreAll(table, items) == StoreAll(StoreAll(table, [items[0]]), items[1..])
  {
    assert [items[0]][1..] == [];
  }

  lemma {:induction false} ReadItems(s: State, items: seq<Item>)
    requires forall i :: i in items ==> Writable(s.table, i) && (i.Value? ==> '\n' !in i.setting.value)
    ensures ReadLines(s, ItemsText(items)) == s.(table := StoreAll(s.table, items))
    decreases |items|
  {
    hide StoreAll, Writable;
    if items != [] {
      var i := items[0];
      var s' := s.(table := StoreAll(s.table, [i]));
      ReadItem(s, i, ItemsText(items[1..]));
      StoreKinds(s.table, i);
      StoreSplit(s.table, items);
      forall j | j in items[1..]
        ensures Writable(s'.table, j) && (j.Value? ==> '\n' !in j.setting.value)
      {
        StillWritable(s.table, s'.table, j);
      }
      ReadItems(s', items[1..]);
    } else {
      StoreNone(s.table);
    }
  }

  lemma StoreNone(table: map<string, Entry>)
    ensures StoreAll(table, []) == table
  {
  }

  lemma StillWritable(a: map<string, Entry>, b: map<string, Entry>, i: Item)
    requires Writable(a, i) && b.Keys == a.Keys && forall n :: n in a ==> b[n].kind == a[n].kind
    ensures Writable(b, i)
  {
  }

  /** Writing a configuration and reading the text back: the symbols that were written have the
      values that were written, and no other symbol has one. */
  lemma RoundTrip(s: State, title: string, items: seq<Item>)
    requires Plain(title)
    requires forall i :: i in items ==> Writable(s.table, i) && (i.Value? ==> '\n' !in i.setting.value)
    ensures Read(s, ConfigFile(title, items)) == Reset(s).(table := StoreAll(Reset(s).table, items))
  {
    hide ReadLines, MeaningOf, StoreAll, Writable;
    var r := Reset(s);
    forall i | i in items
      ensures Writable(r.table, i)
    {
      StillWritable(s.table, r.table, i);
    }
    ReadItems(r, items);
    var body := ItemsText(items);
    ReadHeading(r, title, body);
  }

  // ----- exactly when values are restored -----

  ghost predicate DistinctNames(items: seq<Item>)
  {
    forall i, j :: 0 <= i < j < |items| && items[i].Value? && items[j].Value? ==>
      items[i].setting.name != items[j].setting.name
  }

  /** The user's value of the symbol is the one that was written. */
  predicate Restored(table: map<string, Entry>, t: Setting)
  {
    && t.name in table && table[t.name].known
    && if Logic(t.kind) then table[t.name].tri == (if t.value == "y" then YES else if t.value == "m" then MOD else NO)
       else table[t.name].val == Some(t.value)
  }

  /** A setting that can be restored: it fits into its line, and a number is one. */
  predicate Restorable(t: Setting)
  {
    '\n' !in t.value && (t.kind == Int || t.kind == Hex ==> ValidText(t.kind, t.value))
  }

  /** No value contains a newline, and all numbers are valid. */
  ghost predicate Sound(table: map<string, Entry>)
  {
    forall n :: n in table && table[n].val.Some? ==>
      && '\n' !in table[n].val.value
      && (table[n].kind == Int || table[n].kind == Hex ==> ValidText(table[n].kind, table[n].val.value))
  }

  /** Symbols keep their types, unless they have none. */
  ghost predicate SameKinds(a: map<string, Entry>, b: map<string, Entry>)
  {
    a.Keys == b.Keys && forall n :: n in a && a[n].kind != Other ==> b[n].kind == a[n].kind
  }

  lemma {:induction false} UnquoteFree(s: string, c: char)
    requires c !in s && Unquote(s).Some?
    ensures c !in Unquote(s).value
    decreases |s|
  {
    if s[0] != '"' {
      UnquoteFree(if s[0] == '\\' then s[2..] else s[1..], c);
    }
  }

  /** Whatever the text, no value that is read contains a newline, and every number is one. */
  lemma {:induction false} ReadFree(s: State, text: string)
    requires Sound(s.table)
    ensures Sound(ReadLines(s, text).table) && SameKinds(s.table, ReadLines(s, text).table)
    decreases |text|
  {
    hide MeaningOf, Apply, Sound;
    if text != "" {
      var l := FirstLine(text);
      var m := MeaningOf(l);
      AssignFree(l);
      ApplyFree(s, m);
      ReadFree(Apply(s, m), text[|l|..]);
    }
  }

  lemma ApplyFree(s: State, m: Meaning)
    requires Sound(s.table) && (m.Assign? ==> '\n' !in m.text)
    ensures Sound(Apply(s, m).table) && SameKinds(s.table, Apply(s, m).table)
  {
    hide SetValue, ValidText;
    if m.Assign? && m.name in s.table { SetValueFree(s.table[m.name], m.text); }
  }

  lemma SetValueFree(e: Entry, p: string)
    requires '\n' !in p
    ensures var e' := SetValue(e, p);
            && (e.kind == Other || e'.kind == e.kind)
            && ((e'.val == e.val && e'.kind == e.kind)
                || (e'.val.Some? && '\n' !in e'.val.value
                    && (e'.kind == Int || e'.kind == Hex ==> ValidText(e'.kind, e'.val.value))))
  {
    hide Unquote, ValidInt, ValidHex;
    if p != "" && Unquote(p[1..]).Some? { UnquoteFree(p[1..], '\n'); }
  }

  lemma AssignFree(l: string)
    ensures var m := MeaningOf(l); m.Assign? ==> '\n' !in m.text
  {
    if StartsWith(l, PREFIX) {
      var rest := CString(l[|PREFIX|..]);
      var i := Index(rest, '=');
      if i < |rest| {
        var p := rest[i + 1..];
        var j := Index(p, '\n');
        assert '\n' !in p[..j] && (j > 0 ==> p[..j - 1] == p[..j][..j - 1]);
      }
    }
  }

  /** A configuration is restored exactly when none of its strings contains a newline and all of its
      numbers are numbers. */
  lemma RoundTripExact(s: State, title: string, items: seq<Item>)
    requires Plain(title) && DistinctNames(items) && forall i :: i in items ==> Writable(s.table, i)
    ensures (forall i :: i in items && i.Value? ==> Restored(Read(s, ConfigFile(title, items)).table, i.setting)) <==>
            (forall i :: i in items && i.Value? ==> Restorable(i.setting))
  {
    hide ReadLines, StoreAll, ConfigFile, Restorable, Stored;
    var r := Read(s, ConfigFile(title, items));
    if forall i :: i in items && i.Value? ==> Restorable(i.setting) {
      forall i | i in items && i.Value?
        ensures '\n' !in i.setting.value
      {
        assert Restorable(i.setting);
        OnOneLine(i.setting);
      }
      RoundTrip(s, title, items);
      forall i | i in items && i.Value?
        ensures Restored(r.table, i.setting)
      {
        var k :| 0 <= k < |items| && items[k] == i;
        StoreAllAt(Reset(s).table, items, k);
        assert Writable(s.table, i);
        StoredRestored(Reset(s).table[i.setting.name], i.setting);
      }
    }
    if forall i :: i in items && i.Value? ==> Restored(r.table, i.setting) {
      ReadFree(Reset(s), ConfigFile(title, items));
      forall i | i in items && i.Value?
        ensures Restorable(i.setting)
      {
        assert Writable(s.table, i);
        assert Restored(r.table, i.setting);
        RestoredRestorable(r.table, i.setting);
      }
    }
  }

  lemma OnOneLine(t: Setting)
    requires Restorable(t)
    ensures '\n' !in t.value
  {
  }

  lemma StoredRestored(e: Entry, t: Setting)
    requires e.kind == t.kind && Suits(t.kind, t.value) && Restorable(t)
    ensures var e' := Stored(e, t.value);
            && e'.known
            && if Logic(t.kind) then e'.tri == (if t.value == "y" then YES else if t.value == "m" then MOD else NO)
               else e'.val == Some(t.value)
  {
    hide ValidInt, ValidHex;
    if t.kind == Int { ValidIntPlain(t.value); }
    if t.kind == Hex { ValidHexPlain(t.value); }
  }

  lemma RestoredRestorable(table: map<string, Entry>, t: Setting)
    requires Sound(table) && Restored(table, t) && Suits(t.kind, t.value) && table[t.name].kind == t.kind
    ensures Restorable(t)
  {
    hide ValidText;
  }

  /** A number without a value is written, but not restored. */
  lemma EmptyNumber(s: State, title: string, t: Setting)
    requires Plain(title) && Writable(s.table, Value(t)) && (t.kind == Int || t.kind == Hex) && t.value == ""
    ensures SettingText(t) == PREFIX + t.name + "=\n"
    ensures Read(s, ConfigFile(title, [Value(t)])) == Reset(s) && !Restored(Reset(s).table, t)
  {
    hide ReadLines, ConfigFile;
    RoundTrip(s, title, [Value(t)]);
    var r := Reset(s).table;
    assert [Value(t)][1..] == [];
    assert PREFIX + t.name + "=" + "" + "\n" == PREFIX + t.name + "=\n";
    assert Stored(r[t.name], "") == r[t.name];
    assert r[t.name := r[t.name]] == r;
  }

  lemma {:induction false} StoreAllElsewhere(table: map<string, Entry>, items: seq<Item>, n: string)
    requires n in table && forall i :: i in items && i.Value? ==> i.setting.name != n
    ensures var table' := StoreAll(table, items); n in table' && table'[n] == table[n]
    decreases |items|
  {
    if items != [] {
      var i := items[0];
      if i.Title? || i.setting.name !in table {
        StoreAllElsewhere(table, items[1..], n);
      } else {
        StoreAllElsewhere(table[i.setting.name := Stored(table[i.setting.name], i.setting.value)], items[1..], n);
      }
    }
  }

  /** With distinct names, every value is stored for its own symbol. */
  lemma {:induction false} StoreAllAt(table: map<string, Entry>, items: seq<Item>, k: nat)
    requires DistinctNames(items) && k < |items| && items[k].Value? && items[k].setting.name in table
    ensures var (t, table') := (items[k].setting, StoreAll(table, items));
            t.name in table' && table'[t.name] == Stored(table[t.name], t.value)
    decreases |items|
  {
    var i := items[0];
    if k == 0 {
      var table1 := table[i.setting.name := Stored(table[i.setting.name], i.setting.value)];
      forall j | j in items[1..] && j.Value?
        ensures j.setting.name != i.setting.name
      {
        var m :| 0 <= m < |items[1..]| && items[1..][m] == j;
        assert items[m + 1] == j;
      }
      StoreAllElsewhere(table1, items[1..], i.setting.name);
    } else {
      assert items[1..][k - 1] == items[k];
      var table1 := if i.Title? || i.setting.name !in table then table
                    else table[i.setting.name := Stored(table[i.setting.name], i.setting.value)];
      StoreAllAt(table1, items[1..], k - 1);
    }
  }

  /** Such a title: this one takes away the value of FOO. */
  lemma TitleUnsets(s: State)
    requires "FOO" in s.table && s.table["FOO"].kind == Boolean
    ensures var title := PREFIX + FOO_UNSET;
            OneLine(title) && !Harmless(title)
            && MeaningOf("# " + title + "\n") == Unset("FOO") && Apply(s, Unset("FOO")).table["FOO"].known
  {
    hide MeaningOf, Index;
    var rest := FOO_UNSET;
    var title := PREFIX + rest;
    assert title[|PREFIX|..] == rest && StartsWith(title, PREFIX);
    UnsetFoo();
    TitleMeaning(title);
  }

  const FOO_UNSET := "FOO" + [' '] + "is not set"

  lemma UnsetFoo()
    ensures UnsetOf(FOO_UNSET) == Unset("FOO") && OneLine(FOO_UNSET) && !ConstantName("FOO")
  {
    hide Index;
    var (name, phrase) := ("FOO", "is not set");
    IndexAfter(name, ' ', phrase);
  }

  // ----- a hash without a line end -----

  /** The last line of the text is a hash and nothing else, not even a newline. */
  predicate BareHash(text: string)
  {
    text != "" && text[|text| - 1] == '#' && (|text| > 1 ==> text[|text| - 2] == '\n')
  }

  /** What a bare hash would say in the line after this one: its first two bytes are overwritten by
      the hash and its terminator, and the rest is still in the buffer. A comment has nothing more
      to say: either it was not about a symbol, or its name has been cut off. */
  function LeftOver(l: string): (m: Meaning)
    requires |l| > 1
    ensures !m.Assign?
  {
    if l[0] == '#' then Nothing else Comment(l[2..])
  }

  /** An empty line leaves alone what stands in the buffer behind it. */
  function After(m: Meaning, l: string): Meaning { if |l| > 1 then LeftOver(l) else m }

  /** All lines take effect in turn, when a bare hash would say m. */
  function ReadLinesFrom(s: State, text: string, m: Meaning): State
    decreases |text|
  {
    if text == "" then s
    else
      var l := FirstLine(text);
      ReadLinesFrom(Apply(s, if l == "#" then m else MeaningOf(l)), text[|l|..], After(m, l))
  }

  /** What new memory for a first short line holds behind the first two bytes. */
  function Fresh(garbage: nat -> char): seq<char>
  {
    seq(29, i requires 0 <= i < 29 => garbage(i + 2)) + [NUL]
  }

  /** conf_read_simple: everything is reset, and then every line takes effect in turn. */
  function ReadIn(s: State, text: string, garbage: nat -> char): State
  {
    ReadLinesFrom(Reset(s), text, Comment(Fresh(garbage)))
  }

  /** The last line of at least two characters, or nothing if there is none. */
  function LastLong(text: string): (l: string)
    ensures l == "" || |l| > 1
    decreases |text|
  {
    if text == "" then ""
    else
      var l := FirstLine(text);
      var k := LastLong(text[|l|..]);
      if k != "" || |l| < 2 then k else l
  }

  /** What a bare hash at the end says. */
  function AtEnd(m: Meaning, text: string): Meaning
  {
    var l := LastLong(text);
    if l == "" then m else LeftOver(l)
  }

  predicate Silent(m: Meaning) { m.Nothing? || ConstantName(m.name) }

  /** Only a bare hash at the end makes a difference. */
  lemma {:induction false} ReadLinesFromLast(s: State, text: string, m: Meaning)
    ensures ReadLinesFrom(s, text, m) ==
            if BareHash(text) then Apply(ReadLines(s, text), AtEnd(m, text)) else ReadLines(s, text)
    decreases |text|
  {
    hide Apply, MeaningOf, LeftOver;
    if text != "" {
      var l := FirstLine(text);
      var rest := text[|l|..];
      FirstLineBare(text);
      if text == "#" {
        HashMeans();
        AppliedNothing(s, Nothing);
        assert rest == "";
      } else {
        ReadLinesFromLast(Apply(s, MeaningOf(l)), rest, After(m, l));
      }
    }
  }

  lemma HashMeans()
    ensures MeaningOf("#") == Nothing && FirstLine("#") == "#"
  {
    IndexNone("#", '\n');
  }

  lemma FirstLineBare(text: string)
    requires text != ""
    ensures var l := FirstLine(text);
            && (l == "#" <==> text == "#")
            && (text != "#" ==> (BareHash(text) <==> BareHash(text[|l|..])))
  {
    var i := Index(text, '\n');
    var l := FirstLine(text);
    var rest := text[|l|..];
    if i < |text| {
      assert l[|l| - 1] == '\n';
      if rest != "" { assert rest[|rest| - 1] == text[|text| - 1]; }
      if |rest| > 1 { assert rest[|rest| - 2] == text[|text| - 2]; }
    } else {
      assert text[..i] == text;
      assert forall k :: 0 <= k < |text| ==> text[k] != '\n';
    }
  }

  lemma {:induction false} NamesKept(s: State, text: string)
    ensures ReadLines(s, text).table.Keys == s.table.Keys
    decreases |text|
  {
    if text != "" {
      var l := FirstLine(text);
      NamesKept(Apply(s, MeaningOf(l)), text[|l|..]);
    }
  }

  /** Reading has the effect that the lines of the text have, in every state and whatever new memory
      holds, exactly if the last line is not a bare hash, or the last line of two or more
      characters before it does not go on like a comment that unsets a symbol. */
  lemma ReadExact(text: string)
    ensures (forall s: State, garbage: nat -> char :: ReadIn(s, text, garbage) == Read(s, text)) <==>
            (BareHash(text) ==> var l := LastLong(text); l != "" && Silent(LeftOver(l)))
  {
    hide ReadLines, ReadLinesFrom, Apply, Comment, LeftOver;
    forall s: State, garbage: nat -> char
      ensures ReadIn(s, text, garbage) ==
              if BareHash(text) then Apply(Read(s, text), AtEnd(Comment(Fresh(garbage)), text)) else Read(s, text)
      ensures Silent(AtEnd(Comment(Fresh(garbage)), text)) ==>
              Apply(Read(s, text), AtEnd(Comment(Fresh(garbage)), text)) == Read(s, text)
    {
      ReadLinesFromLast(Reset(s), text, Comment(Fresh(garbage)));
      AppliedNothing(Read(s, text), AtEnd(Comment(Fresh(garbage)), text));
    }
    if BareHash(text) && !(LastLong(text) != "" && Silent(LeftOver(LastLong(text)))) {
      var s := State(map[], 0);
      FooUnset();
      NamesKept(Reset(s), text);
      UnknownNoticed(Read(s, text), AtEnd(Comment(Fresh(FOO_MEMORY)), text));
      assert ReadIn(s, text, FOO_MEMORY) != Read(s, text);
    }
  }

  lemma UnknownNoticed(s: State, m: Meaning)
    requires !Silent(m) && m.name !in s.table
    ensures Apply(s, m) == s.(changes := s.changes + 1)
  {
  }

  lemma BehindUnset(behind: seq<char>)
    requires PREFIX + FOO_UNSET + "\n" == behind || PREFIX + FOO_UNSET + "\n" + [NUL] <= behind
    ensures Comment(behind) == Unset("FOO")
  {
    hide UnsetOf, Index;
    UnsetFoo();
    UnsetOfLine(FOO_UNSET);
    var t := FOO_UNSET + "\n";
    var rest := behind[|PREFIX|..];
    assert behind[..|PREFIX|] == PREFIX;
    if PREFIX + t + [NUL] <= behind {
      var tail := behind[|PREFIX + t| + 1..];
      assert behind == PREFIX + t + [NUL] + tail;
      assert rest == t + [NUL] + tail;
      assert NUL !in t;
      IndexAfter(t, NUL, tail);
      assert CString(rest) == t;
    } else {
      assert behind == PREFIX + t;
      assert rest == t;
    }
  }

  /** Memory from which a bare hash in the first line unsets FOO. */
  const FOO_MEMORY: nat -> char :=
    (i: nat) => var t := PREFIX + FOO_UNSET + "\n"; if 2 <= i < 2 + |t| then t[i - 2] else NUL

  lemma FooUnset()
    ensures Comment(Fresh(FOO_MEMORY)) == Unset("FOO") && !Silent(Unset("FOO"))
  {
    hide Comment;
    var t := PREFIX + FOO_UNSET + "\n";
    var f := Fresh(FOO_MEMORY);
    assert |t| == 22 && |f| == 30;
    assert forall i :: 0 <= i < |t| ==> f[i] == FOO_MEMORY(i + 2) == t[i];
    assert f[..|t|] == t && f[|t|] == NUL;
    assert f[..|t| + 1] == t + [NUL];
    BehindUnset(f);
  }

  /** A text on which it matters whatever new memory holds: its first line is not understood, but it
      is still in the buffer when the hash is read. */
  function LeftBehind(): string { "xx" + PREFIX + FOO_UNSET + "\n" }

  /** The hash behind it takes away the value of FOO, though neither line means anything. */
  lemma BareHashUnsets(s: State, garbage: nat -> char)
    requires "FOO" in s.table && s.table["FOO"].kind == Boolean
    ensures Read(s, LeftBehind() + "#") == Reset(s)
    ensures ReadIn(s, LeftBehind() + "#", garbage) == Apply(Reset(s), Unset("FOO")) != Reset(s)
  {
    hide Apply, Index, Comment, Fresh;
    var l := LeftBehind();
    assert l[2..] == PREFIX + FOO_UNSET + "\n";
    BehindUnset(l[2..]);
    LeftBehindLine();
    LeftBehindLast();
    HashMeans();
    ReadLine(Reset(s), l, "#");
    AppliedNothing(Reset(s), Nothing);
    NothingRead(Reset(s));
    assert "#"[|"#"|..] == "";
    ReadLinesFromLast(Reset(s), l + "#", Comment(Fresh(garbage)));
    UnsetNoticed(Reset(s));
  }

  lemma LeftBehindLine()
    ensures IsLine(LeftBehind(), false) && MeaningOf(LeftBehind()) == Nothing
  {
    var l := LeftBehind();
    var front := "xx" + PREFIX + FOO_UNSET;
    assert l[..|l| - 1] == front && '\n' !in front;
    assert l[0] == 'x' && PREFIX[0] == 'C';
  }

  lemma LeftBehindLast()
    ensures BareHash(LeftBehind() + "#") && LastLong(LeftBehind() + "#") == LeftBehind()
  {
    hide Index;
    var l := LeftBehind();
    LeftBehindLine();
    FirstLineOf(l, "#");
    HashMeans();
    assert "#"[|"#"|..] == "";
    assert LastLong("#") == "";
  }

  lemma UnsetNoticed(s: State)
    requires "FOO" in s.table && s.table["FOO"].kind == Boolean && !s.table["FOO"].known
    ensures Apply(s, Unset("FOO")).table["FOO"].known
  {
  }
}
