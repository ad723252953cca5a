/** Saving a configuration and loading it again: the walk of conf_write over the menu tree, the
    text it writes, and the reader of that text (scripts/config/confdata.c). */
module Saving {
  import opened Expressions
  import opened MenuForest
  import opened MenuWalk
  import opened ConfigText

  /** The settings among the items of a text. */
  function Settings(items: seq<Item>): seq<Setting>
  {
    if items == [] then []
    else (if items[0].Value? then [items[0].setting] else []) + Settings(items[1..])
  }

  /** The settings of some symbols, given what is written for each of them. */
  function Printed(out: seq<Sym>, text: Sym -> Setting): (r: seq<Setting>)
    ensures |r| == |out| && forall i :: 0 <= i < |out| ==> r[i] == text(out[i])
  {
    if out == [] then [] else [text(out[0])] + Printed(out[1..], text)
  }

  ghost predicate DistinctSettings(ts: seq<Setting>)
  {
    forall i, j :: 0 <= i < j < |ts| ==> ts[i].name != ts[j].name
  }

  lemma {:induction false} SettingsHas(items: seq<Item>, i: Item)
    requires i in items && i.Value?
    ensures i.setting in Settings(items)
    decreases |items|
  {
    if items[0] != i {
      SettingsHas(items[1..], i);
    }
  }

  lemma {:induction false} SettingsDistinct(items: seq<Item>)
    requires DistinctSettings(Settings(items))
    ensures DistinctNames(items)
    decreases |items|
  {
    if items != [] {
      SettingsTail(items);
      SettingsDistinct(items[1..]);
      forall i, j | 0 <= i < j < |items| && items[i].Value? && items[j].Value?
        ensures items[i].setting.name != items[j].setting.name
      {
        if i == 0 {
          FirstApart(items, j);
        } else {
          assert items[1..][i - 1] == items[i] && items[1..][j - 1] == items[j];
        }
      }
    }
  }

  lemma SettingsTail(items: seq<Item>)
    requires items != [] && DistinctSettings(Settings(items))
    ensures DistinctSettings(Settings(items[1..]))
  {
    hide Settings;
    SettingsFirst(items);
    var (ts, rest) := (Settings(items), Settings(items[1..]));
    if items[0].Value? {
      assert forall k :: 0 <= k < |rest| ==> rest[k] == ts[k + 1];
    } else {
      assert ts == rest;
    }
  }

  lemma SettingsFirst(items: seq<Item>)
    requires items != []
    ensures Settings(items) == (if items[0].Value? then [items[0].setting] else []) + Settings(items[1..])
  {
  }

  lemma FirstApart(items: seq<Item>, j: nat)
    requires 0 < j < |items| && items[0].Value? && items[j].Value? && DistinctSettings(Settings(items))
    ensures items[0].setting.name != items[j].setting.name
  {
    hide Settings;
    SettingsFirst(items);
    var (ts, rest) := (Settings(items), Settings(items[1..]));
    assert items[1..][j - 1] == items[j];
    SettingsHas(items[1..], items[j]);
    var k :| 0 <= k < |rest| && rest[k] == items[j].setting;
    assert ts[0] == items[0].setting && ts[k + 1] == rest[k];
  }

  /** Symbols with different names are written under different names. */
  lemma PrintedDistinct<K>(entries: seq<(K, Info)>, due: iset<Sym>, text: Sym -> Setting)
    requires forall a, b :: a in due && b in due && a != b ==> text(a).name != text(b).name
    ensures DistinctSettings(Printed(Written(entries, due), text))
  {
    WrittenOnce(entries, due);
    var out := Written(entries, due);
    forall i, j | 0 <= i < j < |out|
      ensures text(out[i]).name != text(out[j]).name
    {
      assert out[i] in due && out[j] in due;
    }
  }

  /** The symbols that a walk over the menu tree writes, among any titles, are restored by reading
      the text exactly if none of their strings contains a newline and all of their numbers are
      numbers. */
  lemma SavedConfiguration<K>(entries: seq<(K, Info)>, due: iset<Sym>, text: Sym -> Setting,
                              s: State, title: string, items: seq<Item>)
    requires forall a, b :: a in due && b in due && a != b ==> text(a).name != text(b).name
    requires Settings(items) == Printed(Written(entries, due), text)
    requires Plain(title) && forall i :: i in items ==> Writable(s.table, i)
    ensures (forall a :: a in due && HasEntry(entries, a) ==>
               Restored(Read(s, ConfigFile(title, items)).table, text(a))) <==>
            (forall a :: a in due && HasEntry(entries, a) ==> Restorable(text(a)))
  {
    var out := Written(entries, due);
    PrintedDistinct(entries, due, text);
    SettingsDistinct(items);
    RoundTripExact(s, title, items);
    WrittenOnce(entries, due);
    hide Read, ConfigFile, Written, Writable, Restored, Restorable;
    var table := Read(s, ConfigFile(title, items)).table;
    forall i | i in items && i.Value?
      ensures exists a :: a in due && HasEntry(entries, a) && text(a) == i.setting
    {
      SettingsHas(items, i);
      var k :| 0 <= k < |out| && Printed(out, text)[k] == i.setting;
      assert out[k] in out;
    }
    forall a | a in due && HasEntry(entries, a)
      ensures exists i :: i in items && i.Value? && i.setting == text(a)
    {
      var k :| 0 <= k < |out| && out[k] == a;
      assert Settings(items)[k] == text(a);
      SettingsFrom(items, text(a));
    }
  }

  lemma {:induction false} SettingsFrom(items: seq<Item>, t: Setting)
    requires t in Settings(items)
    ensures Value(t) in items
    decreases |items|
  {
    if items[0] != Value(t) {
      SettingsFrom(items[1..], t);
    }
  }
}
