/**
 * Model of src/utils/emojiMapper.ts: a fixed word-to-emoji table, a
 * case-insensitive lookup with a naive plural fallback, and a sentence
 * transformer that puts the emoji of each recognised word in front of it.
 *
 * The lookup and the sentence transformer are written against a table
 * parameter; the source's functions are those applied to `EmojiMap`.
 */
module EmojiMapper {
  import opened Text
  import opened Wrappers

  // ---------------------------------------------------------------------------
  // The table `emojiMap`
  // ---------------------------------------------------------------------------

  /** A property of the object literal `emojiMap`: a word and its emoji. */
  type Entry = (string, string)

  // The properties in source order, in the six groups the source comments name.

  const Actors: seq<(string, string)> := [
    ("user", "👤"),
    ("users", "👥"),
    ("actor", "🎭"),
    ("person", "🧑"),
    ("people", "🧑‍🤝‍🧑"),
    ("client", "📱"),
    ("customer", "🛍️"),
    ("admin", "🛡️"),
    ("administrator", "🛡️")
  ]

  const Infrastructure: seq<(string, string)> := [
    ("database", "🗄️"),
    ("db", "🗄️"),
    ("server", "🖥️"),
    ("cloud", "☁️"),
    ("api", "🔌"),
    ("service", "⚙️"),
    ("network", "🌐"),
    ("internet", "🌐"),
    ("web", "🕸️"),
    ("site", "💻"),
    ("app", "📱"),
    ("application", "📱"),
    ("system", "⚙️")
  ]

  const Actions: seq<(string, string)> := [
    ("save", "💾"),
    ("saving", "💾"),
    ("load", "📂"),
    ("loading", "📂"),
    ("delete", "🗑️"),
    ("remove", "🗑️"),
    ("edit", "✏️"),
    ("update", "🔄"),
    ("search", "🔍"),
    ("find", "🔍"),
    ("login", "🔑"),
    ("logout", "🚪"),
    ("auth", "🔒"),
    ("authentication", "🔒"),
    ("send", "Vk"),
    ("receive", "📥"),
    ("connect", "🔗"),
    ("disconnect", "🔌")
  ]

  const Data: seq<(string, string)> := [
    ("file", "📄"),
    ("document", "📄"),
    ("image", "🖼️"),
    ("photo", "🖼️"),
    ("video", "📹"),
    ("music", "🎵"),
    ("audio", "🔉"),
    ("email", "📧"),
    ("mail", "📧"),
    ("message", "💬"),
    ("chat", "💬"),
    ("report", "📊"),
    ("chart", "📊"),
    ("money", "💰"),
    ("payment", "💳"),
    ("price", "🏷️")
  ]

  const States: seq<(string, string)> := [
    ("error", "❌"),
    ("success", "✅"),
    ("warning", "⚠️"),
    ("info", "ℹ️"),
    ("bug", "🐛"),
    ("idea", "💡"),
    ("love", "❤️"),
    ("like", "👍"),
    ("dislike", "👎")
  ]

  const Misc: seq<(string, string)> := [
    ("time", "⏰"),
    ("date", "📅"),
    ("home", "🏠"),
    ("work", "💼"),
    ("school", "🏫"),
    ("book", "📚"),
    ("phone", "📞"),
    ("computer", "💻"),
    ("lock", "🔒"),
    ("key", "🔑"),
    ("star", "⭐"),
    ("fire", "🔥"),
    ("robot", "🤖"),
    ("ai", "🤖"),
    ("magic", "✨")
  ]


  const Entries: seq<Entry> := Actors + Infrastructure + Actions + Data + States + Misc

  /** The object an object literal builds: the properties are added in
      order, a later one replacing an earlier one of the same name. */
  function ToMap(entries: seq<Entry>): (m: map<string, string>)
    ensures forall k :: k in m <==> exists i :: 0 <= i < |entries| && entries[i].0 == k
    ensures forall k :: k in m ==> exists i :: 0 <= i < |entries| && entries[i] == (k, m[k])
  {
    if entries == [] then map[]
    else
      var init := entries[..|entries| - 1];
      var e := entries[|entries| - 1];
      assert forall i :: 0 <= i < |init| ==> init[i] == entries[i];
      ToMap(init)[e.0 := e.1]
  }

  const EmojiMap: map<string, string> := ToMap(Entries)

  /** The object of a longer literal is the object of its first part
      overridden by the object of the rest. */
  lemma {:induction false} ToMapAppend(a: seq<Entry>, b: seq<Entry>)
    ensures ToMap(a + b) == ToMap(a) + ToMap(b)
    decreases |b|
  {
    if b == [] {
      assert a + b == a;
      assert ToMap(a) + map[] == ToMap(a);
    } else {
      var b0 := b[..|b| - 1];
      var e := b[|b| - 1];
      assert (a + b)[..|a + b| - 1] == a + b0;
      assert (a + b)[|a + b| - 1] == e;
      ToMapAppend(a, b0);
      UpdateUnion(ToMap(a), ToMap(b0), e.0, e.1);
    }
  }

  lemma UpdateUnion(m1: map<string, string>, m2: map<string, string>, k: string, v: string)
    ensures (m1 + m2)[k := v] == m1 + m2[k := v]
  {
  }

  /** A property that no later property overrides is what the object holds. */
  lemma {:induction false} ToMapFound(entries: seq<Entry>, i: nat)
    requires i < |entries|
    requires forall j :: i < j < |entries| ==> entries[j].0 != entries[i].0
    ensures entries[i].0 in ToMap(entries) && ToMap(entries)[entries[i].0] == entries[i].1
    decreases |entries|
  {
    if i < |entries| - 1 {
      var init := entries[..|entries| - 1];
      assert init[i] == entries[i];
      ToMapFound(init, i);
    }
  }

  lemma EmojiMapGroups()
    ensures EmojiMap == ToMap(Actors) + ToMap(Infrastructure) + ToMap(Actions)
                      + ToMap(Data) + ToMap(States) + ToMap(Misc)
  {
    ToMapAppend(Actors, Infrastructure);
    ToMapAppend(Actors + Infrastructure, Actions);
    ToMapAppend(Actors + Infrastructure + Actions, Data);
    ToMapAppend(Actors + Infrastructure + Actions + Data, States);
    ToMapAppend(Actors + Infrastructure + Actions + Data + States, Misc);
  }

  predicate NoSpace(s: string) {
    forall i :: 0 <= i < |s| ==> !IsSpace(s[i])
  }

  /** What the proofs about `emojifySentence` need of a table: no empty key,
      and every value a non-empty emoji without whitespace that is itself not
      recognised as a word. */
  ghost predicate TableOk(table: map<string, string>) {
    [] !in table && forall k :: EntryOk(table, k)
  }

  predicate EntryOk(table: map<string, string>, k: string) {
    k in table ==>
      table[k] != [] && NoSpace(table[k]) && Lookup(table, StripPunctuation(table[k])) == None
  }

  // Facts about the entries, checked one group at a time.

  /** The key starts with a lower-case ASCII letter; the value is non-empty,
      free of whitespace and, but for the value "Vk" of "send", starts with
      a character outside ASCII. */
  predicate EntryPlain(e: Entry) {
    && e.0 != [] && 'a' <= e.0[0] <= 'z'
    && e.1 != [] && NoSpace(e.1) && (e.1 == "Vk" || e.1[0] as int >= 128)
  }

  predicate EntriesPlain(entries: seq<Entry>) {
    forall i :: 0 <= i < |entries| ==> EntryPlain(entries[i])
  }

  /** No property of `entries` is named `k`. */
  predicate Absent(entries: seq<Entry>, k: string) {
    forall i :: 0 <= i < |entries| ==> entries[i].0 != k
  }

  lemma ActorsPlain() ensures EntriesPlain(Actors) {}
  lemma InfrastructurePlain() ensures EntriesPlain(Infrastructure) {}
  lemma ActionsPlain() ensures EntriesPlain(Actions) {}
  lemma DataPlain() ensures EntriesPlain(Data) {}
  lemma StatesPlain() ensures EntriesPlain(States) {}
  lemma MiscPlain() ensures EntriesPlain(Misc) {}

  lemma EntriesPlainAppend(a: seq<Entry>, b: seq<Entry>)
    requires EntriesPlain(a) && EntriesPlain(b)
    ensures EntriesPlain(a + b)
  {
    forall i | 0 <= i < |a + b|
      ensures EntryPlain((a + b)[i])
    {
      if i >= |a| {
        assert (a + b)[i] == b[i - |a|];
      }
    }
  }

  /** Every key starts with a lower-case ASCII letter. */
  predicate KeysPlain(table: map<string, string>) {
    forall k :: k in table ==> k != [] && 'a' <= k[0] <= 'z'
  }

  /** Every value is non-empty and free of whitespace, and all but "Vk" start
      with a character outside ASCII. */
  predicate ValuesPlain(table: map<string, string>) {
    forall k :: k in table ==>
      table[k] != [] && NoSpace(table[k]) && (table[k] == "Vk" || table[k][0] as int >= 128)
  }

  lemma ToMapPlain(entries: seq<Entry>)
    requires EntriesPlain(entries)
    ensures KeysPlain(ToMap(entries)) && ValuesPlain(ToMap(entries))
  {
    forall k | k in ToMap(entries)
      ensures EntryPlain((k, ToMap(entries)[k]))
    {
      var i :| 0 <= i < |entries| && entries[i] == (k, ToMap(entries)[k]);
    }
  }

  lemma EmojiMapPlain()
    ensures KeysPlain(EmojiMap) && ValuesPlain(EmojiMap)
  {
    ActorsPlain(); InfrastructurePlain(); ActionsPlain(); DataPlain(); StatesPlain(); MiscPlain();
    EntriesPlainAppend(Actors, Infrastructure);
    EntriesPlainAppend(Actors + Infrastructure, Actions);
    EntriesPlainAppend(Actors + Infrastructure + Actions, Data);
    EntriesPlainAppend(Actors + Infrastructure + Actions + Data, States);
    EntriesPlainAppend(Actors + Infrastructure + Actions + Data + States, Misc);
    ToMapPlain(Entries);
  }

  /** Words the examples below look up that a group does not hold. */
  lemma ActorsLacks()
    ensures Absent(Actors, "vk") && Absent(Actors, "to") && Absent(Actors, "saves")
    ensures Absent(Actors, "databases") && Absent(Actors, "unknownword123")
  {}

  lemma ActorsLacksKeys()
    ensures Absent(Actors, "database") && Absent(Actors, "save") && Absent(Actors[1..], "user")
    ensures Absent(Actors[2..], "users")
  {}

  lemma InfrastructureLacks()
    ensures Absent(Infrastructure, "vk") && Absent(Infrastructure, "to") && Absent(Infrastructure, "saves")
    ensures Absent(Infrastructure, "databases") && Absent(Infrastructure, "unknownword123")
  {}

  lemma InfrastructureLacksKeys()
    ensures Absent(Infrastructure, "user") && Absent(Infrastructure, "users") && Absent(Infrastructure, "save")
    ensures Absent(Infrastructure[1..], "database")
  {}

  lemma ActionsLacks()
    ensures Absent(Actions, "vk") && Absent(Actions, "to") && Absent(Actions, "saves")
    ensures Absent(Actions, "databases") && Absent(Actions, "unknownword123")
  {}

  lemma ActionsLacksKeys()
    ensures Absent(Actions, "user") && Absent(Actions, "users") && Absent(Actions, "database")
    ensures Absent(Actions[1..], "save")
  {
    ActionsLacksSave();
  }

  lemma ActionsLacksSave()
    ensures Absent(Actions[1..], "save")
  {
    var later := Actions[1..];
    forall i | 0 <= i < |later|
      ensures later[i].0 != "save"
    {
      assert later[i] == Actions[i + 1];
    }
  }

  lemma DataLacks()
    ensures Absent(Data, "vk") && Absent(Data, "to") && Absent(Data, "saves")
    ensures Absent(Data, "databases") && Absent(Data, "unknownword123")
  {}

  lemma DataLacksKeys()
    ensures Absent(Data, "user") && Absent(Data, "users") && Absent(Data, "database")
    ensures Absent(Data, "save")
  {}

  lemma StatesLacks()
    ensures Absent(States, "vk") && Absent(States, "to") && Absent(States, "saves")
    ensures Absent(States, "databases") && Absent(States, "unknownword123")
  {}

  lemma StatesLacksKeys()
    ensures Absent(States, "user") && Absent(States, "users") && Absent(States, "database")
    ensures Absent(States, "save")
  {}

  lemma MiscLacks()
    ensures Absent(Misc, "vk") && Absent(Misc, "to") && Absent(Misc, "saves")
    ensures Absent(Misc, "databases") && Absent(Misc, "unknownword123")
  {}

  lemma MiscLacksKeys()
    ensures Absent(Misc, "user") && Absent(Misc, "users") && Absent(Misc, "database")
    ensures Absent(Misc, "save")
  {}

  /** The first property named `entries[i].0` from position `i` on is the one
      the object holds, when no later one has that name. */
  lemma FoundAt(entries: seq<Entry>, i: nat)
    requires i < |entries| && Absent(entries[i + 1..], entries[i].0)
    ensures entries[i].0 in ToMap(entries) && ToMap(entries)[entries[i].0] == entries[i].1
  {
    forall j | i < j < |entries|
      ensures entries[j].0 != entries[i].0
    {
      assert entries[i + 1..][j - i - 1] == entries[j];
    }
    ToMapFound(entries, i);
  }

  /** A key of the union of six groups, and its value, in terms of the groups. */
  lemma UnionOfSix(k: string, a: map<string, string>, b: map<string, string>, c: map<string, string>,
                   d: map<string, string>, e: map<string, string>, f: map<string, string>)
    ensures k in a + b + c + d + e + f <==> k in a || k in b || k in c || k in d || k in e || k in f
    ensures k !in b && k !in c && k !in d && k !in e && k !in f && k in a ==> (a + b + c + d + e + f)[k] == a[k]
    ensures k !in c && k !in d && k !in e && k !in f && k in b ==> (a + b + c + d + e + f)[k] == b[k]
    ensures k !in d && k !in e && k !in f && k in c ==> (a + b + c + d + e + f)[k] == c[k]
  {
  }

  /** The example words in each group, as its object holds them. */
  lemma ActorsKeys()
    ensures "vk" !in ToMap(Actors) && "to" !in ToMap(Actors) && "saves" !in ToMap(Actors)
    ensures "databases" !in ToMap(Actors) && "unknownword123" !in ToMap(Actors) && "database" !in ToMap(Actors)
    ensures "save" !in ToMap(Actors)
  {
    ActorsLacks();
    ActorsLacksKeys();
  }

  lemma ActorsFound()
    ensures "user" in ToMap(Actors) && ToMap(Actors)["user"] == "👤"
    ensures "users" in ToMap(Actors) && ToMap(Actors)["users"] == "👥"
  {
    ActorsUser();
    ActorsUsers();
  }

  lemma ActorsUser()
    ensures "user" in ToMap(Actors) && ToMap(Actors)["user"] == "👤"
  {
    ActorsLacks();
    ActorsLacksKeys();
    FoundAt(Actors, 0);
  }

  lemma ActorsUsers()
    ensures "users" in ToMap(Actors) && ToMap(Actors)["users"] == "👥"
  {
    ActorsLacks();
    ActorsLacksKeys();
    FoundAt(Actors, 1);
  }

  lemma InfrastructureKeys()
    ensures "vk" !in ToMap(Infrastructure) && "to" !in ToMap(Infrastructure) && "saves" !in ToMap(Infrastructure)
    ensures "databases" !in ToMap(Infrastructure) && "unknownword123" !in ToMap(Infrastructure) && "user" !in ToMap(Infrastructure)
    ensures "users" !in ToMap(Infrastructure) && "save" !in ToMap(Infrastructure)
    ensures "database" in ToMap(Infrastructure) && ToMap(Infrastructure)["database"] == "🗄️"
  {
    InfrastructureLacks();
    InfrastructureLacksKeys();
    FoundAt(Infrastructure, 0);
  }

  lemma ActionsKeys()
    ensures "vk" !in ToMap(Actions) && "to" !in ToMap(Actions) && "saves" !in ToMap(Actions)
    ensures "databases" !in ToMap(Actions) && "unknownword123" !in ToMap(Actions) && "user" !in ToMap(Actions)
    ensures "users" !in ToMap(Actions) && "database" !in ToMap(Actions)
    ensures "save" in ToMap(Actions) && ToMap(Actions)["save"] == "💾"
  {
    ActionsLacks();
    ActionsLacksKeys();
    FoundAt(Actions, 0);
  }

  lemma DataKeys()
    ensures "vk" !in ToMap(Data) && "to" !in ToMap(Data) && "saves" !in ToMap(Data)
    ensures "databases" !in ToMap(Data) && "unknownword123" !in ToMap(Data) && "user" !in ToMap(Data)
    ensures "users" !in ToMap(Data) && "database" !in ToMap(Data) && "save" !in ToMap(Data)
  {
    DataLacks();
    DataLacksKeys();
  }

  lemma StatesKeys()
    ensures "vk" !in ToMap(States) && "to" !in ToMap(States) && "saves" !in ToMap(States)
    ensures "databases" !in ToMap(States) && "unknownword123" !in ToMap(States) && "user" !in ToMap(States)
    ensures "users" !in ToMap(States) && "database" !in ToMap(States) && "save" !in ToMap(States)
  {
    StatesLacks();
    StatesLacksKeys();
  }

  lemma MiscKeys()
    ensures "vk" !in ToMap(Misc) && "to" !in ToMap(Misc) && "saves" !in ToMap(Misc)
    ensures "databases" !in ToMap(Misc) && "unknownword123" !in ToMap(Misc) && "user" !in ToMap(Misc)
    ensures "users" !in ToMap(Misc) && "database" !in ToMap(Misc) && "save" !in ToMap(Misc)
  {
    MiscLacks();
    MiscLacksKeys();
  }

  /** The example words as `EmojiMap` holds them. */
  lemma EmojiMapEntries()
    ensures "user" in EmojiMap && EmojiMap["user"] == "👤"
    ensures "users" in EmojiMap && EmojiMap["users"] == "👥"
    ensures "database" in EmojiMap && EmojiMap["database"] == "🗄️"
    ensures "save" in EmojiMap && EmojiMap["save"] == "💾"
    ensures "vk" !in EmojiMap && "to" !in EmojiMap && "saves" !in EmojiMap
    ensures "databases" !in EmojiMap && "unknownword123" !in EmojiMap
  {
    EmojiMapFound();
    EmojiMapAbsent();
  }

  lemma EmojiMapFound()
    ensures "user" in EmojiMap && EmojiMap["user"] == "👤"
    ensures "users" in EmojiMap && EmojiMap["users"] == "👥"
    ensures "database" in EmojiMap && EmojiMap["database"] == "🗄️"
    ensures "save" in EmojiMap && EmojiMap["save"] == "💾"
  {
    EmojiMapGroups();
    ActorsKeys(); ActorsFound(); InfrastructureKeys(); ActionsKeys(); DataKeys(); StatesKeys(); MiscKeys();
    var a, b, c, d, e, f := ToMap(Actors), ToMap(Infrastructure), ToMap(Actions), ToMap(Data), ToMap(States), ToMap(Misc);
    UnionOfSix("user", a, b, c, d, e, f);
    UnionOfSix("users", a, b, c, d, e, f);
    UnionOfSix("database", a, b, c, d, e, f);
    UnionOfSix("save", a, b, c, d, e, f);
  }

  lemma EmojiMapAbsent()
    ensures "vk" !in EmojiMap && "to" !in EmojiMap && "saves" !in EmojiMap
    ensures "databases" !in EmojiMap && "unknownword123" !in EmojiMap
  {
    EmojiMapGroups();
    ActorsKeys(); ActorsFound(); InfrastructureKeys(); ActionsKeys(); DataKeys(); StatesKeys(); MiscKeys();
    var a, b, c, d, e, f := ToMap(Actors), ToMap(Infrastructure), ToMap(Actions), ToMap(Data), ToMap(States), ToMap(Misc);
    UnionOfSix("vk", a, b, c, d, e, f);
    UnionOfSix("to", a, b, c, d, e, f);
    UnionOfSix("saves", a, b, c, d, e, f);
    UnionOfSix("databases", a, b, c, d, e, f);
    UnionOfSix("unknownword123", a, b, c, d, e, f);
  }

  /** A word whose first character lies outside ASCII is never found in a
      table whose keys all start with an ASCII letter. */
  lemma {:induction false} NonAsciiNotFound(table: map<string, string>, v: string)
    requires KeysPlain(table)
    requires v != [] && v[0] as int >= 128 && !IsSpace(v[0])
    ensures Lookup(table, StripPunctuation(v)) == None
  {
    var x := StripPunctuation(v);
    var y := ToLower(x);
    assert y[0] == v[0];
    TrimStartKeeps(y);
    var n := Normalize(x);
    assert n == TrimEnd(y);
    assert n != [] && n[0] == v[0];
    LookupByKey(table, x, n);
    NonAsciiKeyAbsent(table, n);
  }

  /** A key starting outside ASCII, or its singular, is no key of a table
      whose keys start with an ASCII letter. */
  lemma NonAsciiKeyAbsent(table: map<string, string>, n: string)
    requires KeysPlain(table)
    requires n != [] && n[0] as int >= 128
    ensures n !in table
    ensures DropLast(n) !in table
  {
    if |n| > 1 {
      assert DropLast(n)[0] == n[0];
    }
  }

  /** A table with plain keys and values, in which "vk" is no key, is fit
      for `emojifySentence`. */
  lemma {:induction false} PlainTableOk(table: map<string, string>)
    requires KeysPlain(table) && ValuesPlain(table) && "vk" !in table
    ensures TableOk(table)
  {
    forall k | k in table
      ensures EntryOk(table, k)
    {
      var v := table[k];
      if v == "Vk" {
        GarbledValueNotFound(table);
      } else {
        NonAsciiNotFound(table, v);
      }
    }
  }

  /** The value "Vk" of "send" is looked up as "vk". */
  lemma GarbledValueNotFound(table: map<string, string>)
    requires "vk" !in table
    ensures Lookup(table, StripPunctuation("Vk")) == None
  {
    assert StripPunctuation("Vk") == "Vk";
    assert ToLower("Vk") == "vk";
    TrimTrimmed("vk");
  }

  lemma EmojiMapOk()
    ensures TableOk(EmojiMap)
  {
    EmojiMapPlain();
    EmojiMapEntries();
    PlainTableOk(EmojiMap);
  }

  // ---------------------------------------------------------------------------
  // getEmojiForWord
  // ---------------------------------------------------------------------------

  /** The lookup key of a word: lower-cased, then trimmed. */
  function Normalize(word: string): (r: string)
    ensures IsTrimmed(r)
    ensures r == [] ==> IsBlank(word)
  {
    Trim(ToLower(word))
  }

  /** `emojiMap[key]` is truthy: the key is in the table with a non-empty value. */
  predicate HasEntry(table: map<string, string>, key: string) {
    key in table && table[key] != []
  }

  predicate TruthyValues(table: map<string, string>) {
    forall k :: k in table ==> table[k] != []
  }

  predicate EndsWithS(s: string) {
    |s| > 0 && s[|s| - 1] == 's'
  }

  /** `s.slice(0, -1)` */
  function DropLast(s: string): string
    requires |s| > 0
  {
    s[..|s| - 1]
  }

  /** The body of `getEmojiForWord`, looking words up in `table`. */
  function Lookup(table: map<string, string>, word: string): (r: Option<string>)
    ensures r.Some? ==> r.value in table.Values && r.value != []
  {
    var lower := Normalize(word);
    if HasEntry(table, lower) then
      Some(table[lower])
    else if EndsWithS(lower) && HasEntry(table, DropLast(lower)) then
      Some(table[DropLast(lower)])
    else
      None
  }

  function GetEmojiForWord(word: string): Option<string> {
    Lookup(EmojiMap, word)
  }

  /** Lower-casing and trimming a word first changes nothing: the result
      depends only on the normalised word ("Database" and "database" agree). */
  lemma {:induction false} LookupDependsOnNormalized(table: map<string, string>, word: string)
    ensures Normalize(Normalize(word)) == Normalize(word)
    ensures Lookup(table, Normalize(word)) == Lookup(table, word)
  {
    NormalizeIdempotent(word);
    var n := Normalize(word);
    LookupByKey(table, word, n);
    LookupByKey(table, n, n);
  }

  /** The lookup only sees the normalised word. */
  lemma LookupByKey(table: map<string, string>, word: string, key: string)
    requires Normalize(word) == key
    ensures Lookup(table, word) ==
      if HasEntry(table, key) then Some(table[key])
      else if EndsWithS(key) && HasEntry(table, DropLast(key)) then Some(table[DropLast(key)])
      else None
  {
  }

  lemma {:induction false} NormalizeIdempotent(word: string)
    ensures Normalize(Normalize(word)) == Normalize(word)
  {
    var low := ToLower(word);
    var t := Trim(low);
    var j := TrimIsInfix(low);
    forall i | 0 <= i < |t|
      ensures ToLowerChar(t[i]) == t[i]
    {
      assert t[i] == low[j + i];
      ToLowerCharIdempotent(word[j + i]);
    }
    assert ToLower(t) == t;
    TrimTrimmed(t);
  }

  /** A normalised word that is a key yields its own entry; an exact hit
      takes priority over the plural fallback. */
  lemma LookupExact(table: map<string, string>, word: string)
    requires TruthyValues(table)
    requires Normalize(word) in table
    ensures Lookup(table, word) == Some(table[Normalize(word)])
  {
  }

  /** Without an exact hit, a word ending in "s" whose singular is a key
      yields the singular's entry, and no other word yields anything. */
  lemma LookupPlural(table: map<string, string>, word: string)
    requires TruthyValues(table)
    requires Normalize(word) !in table
    ensures Lookup(table, word).Some? <==>
      EndsWithS(Normalize(word)) && DropLast(Normalize(word)) in table
    ensures Lookup(table, word).Some? ==>
      Lookup(table, word) == Some(table[DropLast(Normalize(word))])
  {
  }

  /** `null` exactly when neither the word nor its singular is a key. */
  lemma LookupNull(table: map<string, string>, word: string)
    requires TruthyValues(table)
    ensures Lookup(table, word) == None <==>
      Normalize(word) !in table && !(EndsWithS(Normalize(word)) && DropLast(Normalize(word)) in table)
  {
  }

  lemma EmojiMapTruthy()
    ensures TruthyValues(EmojiMap)
  {
    EmojiMapPlain();
    PlainValuesTruthy(EmojiMap);
  }

  lemma PlainValuesTruthy(table: map<string, string>)
    requires ValuesPlain(table)
    ensures TruthyValues(table)
  {
  }

  // Expectations of `emojiMapper.test.ts` for `getEmojiForWord`, each shown
  // for any table with the entries involved and then for `EmojiMap`.

  /** "Database" is looked up as "database". */
  lemma FindsCapitalised(table: map<string, string>)
    requires TruthyValues(table) && "database" in table
    ensures Lookup(table, "Database") == Some(table["database"])
  {
    DatabaseKey();
    TrimTrimmed("database");
    LookupExact(table, "Database");
  }

  /** "databases" is not a key, so it is looked up through "database". */
  lemma FindsPlural(table: map<string, string>)
    requires TruthyValues(table) && "database" in table && "databases" !in table
    ensures Lookup(table, "databases") == Some(table["database"])
  {
    assert "database" + "s" == "databases";
    FindsSingular(table, "database");
  }

  /** A plural that is no key is found through its singular. */
  lemma FindsSingular(table: map<string, string>, w: string)
    requires TruthyValues(table) && w in table && w + "s" !in table
    requires IsTrimmed(w + "s") && forall i :: 0 <= i < |w| ==> !('A' <= w[i] <= 'Z')
    ensures Lookup(table, w + "s") == Some(table[w])
  {
    PluralNormal(w);
    LookupPlural(table, w + "s");
  }

  lemma PluralNormal(w: string)
    requires IsTrimmed(w + "s") && forall i :: 0 <= i < |w| ==> !('A' <= w[i] <= 'Z')
    ensures Normalize(w + "s") == w + "s" && EndsWithS(w + "s") && DropLast(w + "s") == w
  {
    var p := w + "s";
    assert DropLast(p) == w;
    forall i | 0 <= i < |p|
      ensures !('A' <= p[i] <= 'Z')
    {
      if i < |w| {
        assert p[i] == w[i];
      }
    }
    NormalizeLowerWord(p);
  }

  /** "users" is a key of its own and wins over the plural fallback. */
  lemma FindsExactPlural(table: map<string, string>)
    requires TruthyValues(table) && "users" in table
    ensures Lookup(table, "users") == Some(table["users"])
  {
    NormalizeLowerWord("users");
    LookupExact(table, "users");
  }

  lemma FindsNothing(table: map<string, string>)
    requires TruthyValues(table) && "unknownword123" !in table
    ensures Lookup(table, "unknownword123") == None
  {
    NormalizeLowerWord("unknownword123");
    LookupNull(table, "unknownword123");
  }

  lemma ExampleCapitalised()
    ensures GetEmojiForWord("Database") == Some("🗄️")
  {
    EmojiMapEntries();
    EmojiMapTruthy();
    FindsCapitalised(EmojiMap);
  }

  lemma ExamplePlurals()
    ensures GetEmojiForWord("databases") == Some("🗄️")
    ensures GetEmojiForWord("users") == Some("👥")
  {
    EmojiMapEntries();
    EmojiMapTruthy();
    FindsPlural(EmojiMap);
    FindsExactPlural(EmojiMap);
  }

  lemma ExampleUnknown()
    ensures GetEmojiForWord("unknownword123") == None
  {
    EmojiMapEntries();
    EmojiMapTruthy();
    FindsNothing(EmojiMap);
  }

  /** A trimmed word without capitals is its own lookup key. */
  lemma NormalizeLowerWord(s: string)
    requires IsTrimmed(s)
    requires forall i :: 0 <= i < |s| ==> !('A' <= s[i] <= 'Z')
    ensures Normalize(s) == s
  {
    assert ToLower(s) == s;
    TrimTrimmed(s);
  }

  // ---------------------------------------------------------------------------
  // emojifySentence
  // ---------------------------------------------------------------------------

  /** The characters of the regex class `[.,/#!$%^&*;:{}=\-_`~()]`. */
  const Punctuation: set<char> :=
    {'.', ',', '/', '#', '!', '$', '%', '^', '&', '*', ';', ':', '{', '}', '=', '-', '_', '`', '~', '(', ')'}

  /** `word.replace(/[.,/#!$%^&*;:{}=\-_`~()]/g, "")` */
  function StripPunctuation(word: string): (r: string)
    ensures |r| <= |word|
    ensures forall i :: 0 <= i < |r| ==> r[i] !in Punctuation
    ensures (forall i :: 0 <= i < |word| ==> word[i] !in Punctuation) ==> r == word
    ensures word != [] && word[0] !in Punctuation ==> r != [] && r[0] == word[0]
  {
    if word == [] then []
    else if word[0] in Punctuation then StripPunctuation(word[1..])
    else [word[0]] + StripPunctuation(word[1..])
  }

  /** A single character is removed exactly when it is punctuation. */
  lemma StripOne(c: char)
    ensures StripPunctuation([c]) == if c in Punctuation then [] else [c]
  {
  }

  /** The replacement works character by character: stripping a
      concatenation strips each part. With `StripOne`, the result is the
      word's non-punctuation characters, all of them, in order. */
  lemma {:induction false} StripAppend(a: string, b: string)
    ensures StripPunctuation(a + b) == StripPunctuation(a) + StripPunctuation(b)
    decreases |a|
  {
    if a == [] {
      assert a + b == b;
    } else {
      assert (a + b)[0] == a[0];
      assert (a + b)[1..] == a[1..] + b;
      StripAppend(a[1..], b);
    }
  }

  /** What a split can produce: at least one piece, no piece holding
      whitespace, and only the first and the last piece possibly empty. */
  predicate SplitShaped(words: seq<string>) {
    && |words| >= 1
    && (forall i :: 0 <= i < |words| ==> NoSpace(words[i]))
    && (forall i :: 0 < i < |words| - 1 ==> words[i] != [])
  }

  /** `sentence.split(/\s+/)`: the pieces between maximal whitespace runs. A
      leading or trailing run yields an empty first or last piece. */
  function SplitOnSpaces(s: string): (words: seq<string>)
    ensures SplitShaped(words)
    ensures (s == [] || !IsSpace(s[0])) ==> (words[0] == [] <==> s == [])
    decreases |s|
  {
    var i := NextSpace(s, 0);
    if i == |s| then
      [s]
    else
      [s[..i]] + SplitOnSpaces(s[SpacesEnd(s, i)..])
  }

  /** `words.join(" ")` */
  function JoinWithSpaces(words: seq<string>): string {
    if words == [] then []
    else if |words| == 1 then words[0]
    else words[0] + " " + JoinWithSpaces(words[1..])
  }

  /** A non-empty run of whitespace, which `/\s+/` matches as one separator. */
  predicate IsRun(s: string) {
    s != [] && forall i :: 0 <= i < |s| ==> IsSpace(s[i])
  }

  /** The pieces with the `i`-th separator between the `i`-th and the next. */
  function JoinRuns(words: seq<string>, seps: seq<string>): string
    requires |seps| + 1 == |words|
  {
    if seps == [] then words[0]
    else words[0] + seps[0] + JoinRuns(words[1..], seps[1..])
  }

  /** The maximal whitespace runs of `s`, in order: the separators the split
      removes. */
  function Runs(s: string): (seps: seq<string>)
    ensures forall i :: 0 <= i < |seps| ==> IsRun(seps[i])
    decreases |s|
  {
    var i := NextSpace(s, 0);
    if i == |s| then []
    else [s[i..SpacesEnd(s, i)]] + Runs(s[SpacesEnd(s, i)..])
  }

  /** The split loses nothing but the separators: putting the whitespace
      runs of `s` back between the pieces gives `s`. */
  lemma {:induction false} SplitRuns(s: string)
    ensures |Runs(s)| + 1 == |SplitOnSpaces(s)|
    ensures JoinRuns(SplitOnSpaces(s), Runs(s)) == s
    decreases |s|
  {
    var i := NextSpace(s, 0);
    if i < |s| {
      var k := SpacesEnd(s, i);
      SplitRuns(s[k..]);
      SplitStep(s);
      JoinStep(s, i, k, SplitOnSpaces(s[k..]), Runs(s[k..]));
    }
  }

  /** Putting back the text before `i` and the run from `i` to `k` in front
      of a join that gives the text from `k` on gives the whole text. */
  lemma JoinStep(s: string, i: nat, k: nat, words: seq<string>, seps: seq<string>)
    requires i <= k <= |s| && |seps| + 1 == |words|
    requires JoinRuns(words, seps) == s[k..]
    ensures JoinRuns([s[..i]] + words, [s[i..k]] + seps) == s
  {
    JoinRunsCons(s[..i], s[i..k], words, seps);
    assert s == s[..i] + s[i..k] + s[k..];
  }

  /** One step of the split: the text before the first whitespace run, and
      the run itself, come off the front. */
  lemma SplitStep(s: string)
    requires NextSpace(s, 0) < |s|
    ensures SplitOnSpaces(s) == [s[..NextSpace(s, 0)]] + SplitOnSpaces(s[SpacesEnd(s, NextSpace(s, 0))..])
    ensures Runs(s) == [s[NextSpace(s, 0)..SpacesEnd(s, NextSpace(s, 0))]] + Runs(s[SpacesEnd(s, NextSpace(s, 0))..])
  {
  }

  lemma JoinRunsCons(w: string, sep: string, words: seq<string>, seps: seq<string>)
    requires |seps| + 1 == |words|
    ensures JoinRuns([w] + words, [sep] + seps) == w + sep + JoinRuns(words, seps)
  {
    assert ([w] + words)[1..] == words;
    assert ([sep] + seps)[1..] == seps;
  }

  /** Conversely, pieces of a split's shape joined by any whitespace runs,
      a leading or trailing one giving an empty first or last piece, split
      back into those pieces (`"  a\tb "` gives `["", "a", "b", ""]`). */
  lemma {:induction false} SplitJoinRuns(words: seq<string>, seps: seq<string>)
    requires SplitShaped(words) && |seps| + 1 == |words|
    requires forall i :: 0 <= i < |seps| ==> IsRun(seps[i])
    ensures SplitOnSpaces(JoinRuns(words, seps)) == words
    decreases |words|
  {
    if seps == [] {
      NextSpaceAt(words[0], |words[0]|);
    } else {
      var rest := words[1..];
      assert SplitShaped(rest);
      JoinRunsHead(rest, seps[1..]);
      SplitHead(words[0], seps[0], JoinRuns(rest, seps[1..]));
      SplitJoinRuns(rest, seps[1..]);
      assert words == [words[0]] + rest;
    }
  }

  /** The first whitespace is at `n` when the text before `n` has none. */
  lemma NextSpaceAt(s: string, n: nat)
    requires n <= |s| && NoSpace(s[..n])
    requires n == |s| || IsSpace(s[n])
    ensures NextSpace(s, 0) == n
  {
    assert forall j :: 0 <= j < n ==> s[..n][j] == s[j];
  }

  /** A piece, a whitespace run and text not starting with whitespace split
      into the piece followed by the split of the text. */
  lemma SplitHead(w: string, sep: string, j: string)
    requires NoSpace(w) && IsRun(sep)
    requires j == [] || !IsSpace(j[0])
    ensures SplitOnSpaces(w + sep + j) == [w] + SplitOnSpaces(j)
  {
    var s := w + sep + j;
    assert s[..|w|] == w;
    assert s[|w|..|w| + |sep|] == sep;
    assert s[|w| + |sep|..] == j;
    NextSpaceAt(s, |w|);
    SpacesEndAt(s, |w|, sep);
  }

  /** Text joined from a split's shape whose first piece is non-empty, or
      the only one, does not start with whitespace. */
  lemma JoinRunsHead(words: seq<string>, seps: seq<string>)
    requires SplitShaped(words) && |seps| + 1 == |words|
    requires words[0] != [] || |words| == 1
    ensures JoinRuns(words, seps) == [] || !IsSpace(JoinRuns(words, seps)[0])
  {
    var j := JoinRuns(words, seps);
    JoinRunsStartsWith(words, seps);
    if words[0] != [] {
      assert j[0] == words[0][0];
    }
  }

  /** A run of whitespace ends where the whitespace stops. */
  lemma SpacesEndAt(s: string, i: nat, sep: string)
    requires i + |sep| <= |s| && s[i..i + |sep|] == sep && IsRun(sep)
    requires i + |sep| == |s| || !IsSpace(s[i + |sep|])
    ensures SpacesEnd(s, i) == i + |sep|
    decreases |sep|
  {
    assert s[i] == sep[0];
    if |sep| > 1 {
      assert s[i + 1..i + |sep|] == sep[1..];
      SpacesEndAt(s, i + 1, sep[1..]);
    }
  }

  lemma {:induction false} JoinRunsStartsWith(words: seq<string>, seps: seq<string>)
    requires |seps| + 1 == |words|
    ensures |words[0]| <= |JoinRuns(words, seps)|
    ensures JoinRuns(words, seps)[..|words[0]|] == words[0]
    ensures seps == [] ==> JoinRuns(words, seps) == words[0]
  {
  }

  /** `n` single spaces, the separators of `join(" ")`. */
  function SingleSpaces(n: nat): (seps: seq<string>)
    ensures |seps| == n && forall i :: 0 <= i < n ==> seps[i] == " "
  {
    if n == 0 then [] else [" "] + SingleSpaces(n - 1)
  }

  /** `join(" ")` puts a single space between neighbouring words. */
  lemma {:induction false} JoinSingleSpaces(words: seq<string>)
    requires words != []
    ensures JoinWithSpaces(words) == JoinRuns(words, SingleSpaces(|words| - 1))
    decreases |words|
  {
    if |words| > 1 {
      JoinSingleSpaces(words[1..]);
      assert SingleSpaces(|words| - 1)[1..] == SingleSpaces(|words| - 2);
    }
  }

  /** The emoji that `emojifySentence` puts in front of `word`, given the
      input word before it (`prev`), or `None` when the word stays as it is. */
  function EmojiToAdd(table: map<string, string>, word: string, prev: Option<string>): Option<string> {
    match Lookup(table, StripPunctuation(word))
    case None => None
    case Some(e) =>
      if e == [] then None
      else if Contains(word, e) then None
      else if prev == Some(e) then None
      else Some(e)
  }

  /** The callback of `words.map` for one word. */
  function EmojifyWord(table: map<string, string>, word: string, prev: Option<string>): string {
    match EmojiToAdd(table, word, prev)
    case None => word
    case Some(e) => e + " " + word
  }

  /** `words.map(...)`, each word seeing the input word before it. */
  function EmojifyWords(table: map<string, string>, words: seq<string>, prev: Option<string>): (r: seq<string>)
    ensures |r| == |words|
  {
    if words == [] then []
    else [EmojifyWord(table, words[0], prev)] + EmojifyWords(table, words[1..], Some(words[0]))
  }

  /** The body of `emojifySentence`, looking words up in `table`. */
  function Emojify(table: map<string, string>, sentence: string): string {
    JoinWithSpaces(EmojifyWords(table, SplitOnSpaces(sentence), None))
  }

  function EmojifySentence(sentence: string): string {
    Emojify(EmojiMap, sentence)
  }

  // ---------------------------------------------------------------------------
  // Properties of emojifySentence
  // ---------------------------------------------------------------------------

  /** The emoji is added exactly when the lookup of the word without its
      punctuation finds one that the word does not already contain and that
      is not the previous word. */
  lemma EmojiToAddSpec(table: map<string, string>, word: string, prev: Option<string>, e: string)
    ensures EmojiToAdd(table, word, prev) == Some(e) <==>
      Lookup(table, StripPunctuation(word)) == Some(e) && !Contains(word, e) && prev != Some(e)
    ensures EmojifyWord(table, word, prev) == word <==> EmojiToAdd(table, word, prev) == None
  {
    if EmojiToAdd(table, word, prev).Some? {
      var x := EmojiToAdd(table, word, prev).value;
      assert |EmojifyWord(table, word, prev)| == |x| + 1 + |word|;
    }
  }

  /** Under a fit table, only a non-empty word receives an emoji, and the
      emoji is a non-empty value of the table without whitespace. */
  lemma AddedEmoji(table: map<string, string>, word: string, prev: Option<string>)
    requires TableOk(table)
    requires EmojiToAdd(table, word, prev).Some?
    ensures word != []
    ensures EmojiToAdd(table, word, prev).value in table.Values
    ensures EmojiToAdd(table, word, prev).value != [] && NoSpace(EmojiToAdd(table, word, prev).value)
  {
    var e := EmojiToAdd(table, word, prev).value;
    var k :| k in table && table[k] == e;
    assert EntryOk(table, k);
  }

  /** An emoji of a fit table never receives an emoji itself. */
  lemma EmojiNotDecorated(table: map<string, string>, e: string, prev: Option<string>)
    requires TableOk(table) && e in table.Values
    ensures EmojiToAdd(table, e, prev) == None
  {
    var k :| k in table && table[k] == e;
    assert EntryOk(table, k);
  }

  /** The choice `emojifySentence` makes for each word: the emoji to put in
      front of it, given the input word before it. */
  function EmojiChoice(table: map<string, string>): (string, Option<string>) -> Option<string> {
    (word: string, prev: Option<string>) => EmojiToAdd(table, word, prev)
  }

  /** The words of the result for a choice `add`: each input word, preceded
      by its emoji as a word of its own when one is added. */
  function Tokens(add: (string, Option<string>) -> Option<string>, words: seq<string>, prev: Option<string>): (r: seq<string>)
    ensures |r| >= |words|
    ensures r == [] <==> words == []
  {
    if words == [] then []
    else Decorated(add, words[0], prev) + Tokens(add, words[1..], Some(words[0]))
  }

  /** One word, preceded by its emoji when one is added. */
  function Decorated(add: (string, Option<string>) -> Option<string>, word: string, prev: Option<string>): (r: seq<string>)
    ensures r != [] && Last(r) == word
  {
    match add(word, prev)
    case None => [word]
    case Some(e) => [e, word]
  }

  function Last(words: seq<string>): string
    requires words != []
  {
    words[|words| - 1]
  }

  lemma TokensCons(add: (string, Option<string>) -> Option<string>, w: string, rest: seq<string>, prev: Option<string>)
    ensures Tokens(add, [w] + rest, prev) == Decorated(add, w, prev) + Tokens(add, rest, Some(w))
  {
    assert ([w] + rest)[1..] == rest;
  }

  /** An emoji goes only in front of a non-empty word, and is itself a
      non-empty word without whitespace. */
  ghost predicate AddsWords(add: (string, Option<string>) -> Option<string>) {
    forall w, p :: add(w, p).Some? ==> w != [] && add(w, p).value != [] && NoSpace(add(w, p).value)
  }

  /** The previous word only ever suppresses the emoji, and suppresses it
      when it is that emoji; the emoji, drawn from `values`, never receive
      one themselves. */
  ghost predicate AddsOnce(add: (string, Option<string>) -> Option<string>, values: set<string>) {
    && (forall w, p :: add(w, p) == None || add(w, p) == add(w, None))
    && (forall w, e :: add(w, Some(e)) != Some(e))
    && (forall w, p :: add(w, p).Some? ==> add(w, p).value in values)
    && (forall v, p :: v in values ==> add(v, p) == None)
  }

  lemma EmojiChoiceOk(table: map<string, string>)
    requires TableOk(table)
    ensures AddsWords(EmojiChoice(table))
    ensures AddsOnce(EmojiChoice(table), table.Values)
  {
    var add := EmojiChoice(table);
    forall w, p | add(w, p).Some?
      ensures w != [] && add(w, p).value != [] && NoSpace(add(w, p).value)
      ensures add(w, p).value in table.Values
    {
      AddedEmoji(table, w, p);
    }
    forall v, p | v in table.Values
      ensures add(v, p) == None
    {
      EmojiNotDecorated(table, v, p);
    }
  }

  /** Joining two lists of words is joining each and putting a space between. */
  lemma {:induction false} JoinAppend(a: seq<string>, b: seq<string>)
    ensures JoinWithSpaces(a + b) ==
      if a == [] then JoinWithSpaces(b)
      else if b == [] then JoinWithSpaces(a)
      else JoinWithSpaces(a) + " " + JoinWithSpaces(b)
    decreases |a|
  {
    if a == [] {
      assert a + b == b;
    } else if |a| == 1 {
      if b == [] {
        assert a + b == a;
      } else {
        assert (a + b)[1..] == b;
      }
    } else {
      assert (a + b)[1..] == a[1..] + b;
      JoinAppend(a[1..], b);
    }
  }

  /** The mapped words of `emojifySentence`, joined, are its tokens joined. */
  lemma {:induction false} JoinTokens(table: map<string, string>, words: seq<string>, prev: Option<string>)
    ensures JoinWithSpaces(EmojifyWords(table, words, prev)) ==
            JoinWithSpaces(Tokens(EmojiChoice(table), words, prev))
    decreases |words|
  {
    if words != [] {
      var w := words[0];
      var first := Decorated(EmojiChoice(table), w, prev);
      var x := EmojifyWord(table, w, prev);
      var r1 := EmojifyWords(table, words[1..], Some(w));
      var r2 := Tokens(EmojiChoice(table), words[1..], Some(w));
      assert JoinWithSpaces(first) == x;
      assert EmojifyWords(table, words, prev) == [x] + r1;
      assert Tokens(EmojiChoice(table), words, prev) == first + r2;
      JoinAppend([x], r1);
      JoinAppend(first, r2);
      JoinTokens(table, words[1..], Some(w));
    }
  }

  /** The tokens have the shape of a split: the emoji added are words
      without whitespace, and the first and last positions keep whatever
      the input had there. */
  lemma {:induction false} TokensShaped(add: (string, Option<string>) -> Option<string>, words: seq<string>, prev: Option<string>)
    requires AddsWords(add) && SplitShaped(words)
    ensures SplitShaped(Tokens(add, words, prev))
    ensures Last(Tokens(add, words, prev)) == Last(words)
    ensures Tokens(add, words, prev)[0] == [] ==>
      words[0] == [] && (|words| == 1 ==> |Tokens(add, words, prev)| == 1)
    decreases |words|
  {
    var w := words[0];
    var rest := words[1..];
    var first := Decorated(add, w, prev);
    var t := Tokens(add, rest, Some(w));
    assert words == [w] + rest;
    TokensCons(add, w, rest, prev);
    if rest == [] {
      ShapedConcat(first, []);
    } else {
      assert SplitShaped(rest);
      TokensShaped(add, rest, Some(w));
      ShapedConcat(first, t);
    }
  }

  /** One word's tokens followed by the tokens of the words after it. */
  lemma ShapedConcat(first: seq<string>, t: seq<string>)
    requires 1 <= |first| <= 2
    requires forall i :: 0 <= i < |first| ==> NoSpace(first[i])
    requires |first| == 2 ==> first[1] != []
    requires t == [] || SplitShaped(t)
    requires t != [] && t[0] == [] ==> |t| == 1
    ensures SplitShaped(first + t)
    ensures Last(first + t) == if t == [] then Last(first) else Last(t)
    ensures (first + t)[0] == first[0]
    ensures |first + t| == 1 ==> t == [] && |first| == 1
  {
    var r := first + t;
    forall i | 0 <= i < |r|
      ensures NoSpace(r[i])
    {
      if i >= |first| {
        assert r[i] == t[i - |first|];
      }
    }
    forall i | 0 < i < |r| - 1
      ensures r[i] != []
    {
      if i >= |first| {
        assert r[i] == t[i - |first|];
      }
    }
  }

  /** Choosing again over the tokens adds nothing. */
  lemma {:induction false} TokensIdempotent(add: (string, Option<string>) -> Option<string>, values: set<string>,
                                            words: seq<string>, prev: Option<string>)
    requires AddsOnce(add, values)
    ensures Tokens(add, Tokens(add, words, prev), prev) == Tokens(add, words, prev)
    decreases |words|
  {
    if words != [] {
      var w := words[0];
      var t := Tokens(add, words[1..], Some(w));
      TokensIdempotent(add, values, words[1..], Some(w));
      TokensCons(add, w, words[1..], prev);
      TokensCons(add, w, t, prev);
      match add(w, prev)
      case None =>
      case Some(e) =>
        assert add(e, prev) == None;
        assert add(w, Some(e)) == None by {
          assert add(w, None) == Some(e);
          assert add(w, Some(e)) != Some(e);
        }
        TokensCons(add, e, [w] + t, prev);
        TokensCons(add, w, t, Some(e));
        assert [e, w] + t == [e] + ([w] + t);
    }
  }

  /** Joining with single spaces and splitting again gives back the words,
      for any list of words a split can produce. */
  lemma SplitJoin(words: seq<string>)
    requires SplitShaped(words)
    ensures SplitOnSpaces(JoinWithSpaces(words)) == words
  {
    var seps := SingleSpaces(|words| - 1);
    JoinSingleSpaces(words);
    assert forall i :: 0 <= i < |seps| ==> IsRun(seps[i]) by {
      assert forall i :: 0 <= i < |seps| ==> seps[i] == " ";
    }
    SplitJoinRuns(words, seps);
  }

  /** The words of the result, split again, are the input words with each
      added emoji in front of its word. */
  lemma EmojifyReadBack(table: map<string, string>, sentence: string)
    requires TableOk(table)
    ensures SplitOnSpaces(Emojify(table, sentence)) ==
            Tokens(EmojiChoice(table), SplitOnSpaces(sentence), None)
  {
    var words := SplitOnSpaces(sentence);
    JoinTokens(table, words, None);
    EmojiChoiceOk(table);
    TokensShaped(EmojiChoice(table), words, None);
    SplitJoin(Tokens(EmojiChoice(table), words, None));
  }

  /** Emojifying an emojified sentence changes nothing more. */
  lemma EmojifyIdempotent(table: map<string, string>, sentence: string)
    requires TableOk(table)
    ensures Emojify(table, Emojify(table, sentence)) == Emojify(table, sentence)
  {
    var words := SplitOnSpaces(sentence);
    var tokens := Tokens(EmojiChoice(table), words, None);
    EmojifyReadBack(table, sentence);
    JoinTokens(table, words, None);
    JoinTokens(table, tokens, None);
    EmojiChoiceOk(table);
    TokensIdempotent(EmojiChoice(table), table.Values, words, None);
  }

  lemma EmojifySentenceIdempotent(sentence: string)
    ensures EmojifySentence(EmojifySentence(sentence)) == EmojifySentence(sentence)
  {
    EmojiMapOk();
    EmojifyIdempotent(EmojiMap, sentence);
  }

  // ---------------------------------------------------------------------------
  // The sentences of the tests, over any fit table with the words they use
  // ---------------------------------------------------------------------------

  /** A word whose lower-cased form is a trimmed key is looked up as that key. */
  lemma KeyWord(word: string, key: string)
    requires ToLower(word) == key && IsTrimmed(key)
    ensures Normalize(word) == key
  {
    TrimTrimmed(key);
  }

  predicate IsAscii(s: string) {
    forall i :: 0 <= i < |s| ==> (s[i] as int) < 128
  }

  /** An ASCII word contains no emoji that starts outside ASCII. */
  lemma AsciiLacks(s: string, e: string)
    requires IsAscii(s)
    requires e != [] && e[0] as int >= 128
    ensures !Contains(s, e)
  {
    forall i: nat
      ensures !OccursAt(s, e, i)
    {
      if i + |e| <= |s| {
        assert s[i..i + |e|][0] == s[i];
      }
    }
  }

  /** An ASCII word whose lookup finds an emoji starting outside ASCII gets it
      in front, unless the word before it is that emoji. */
  lemma Prefixed(table: map<string, string>, word: string, prev: Option<string>, e: string)
    requires Lookup(table, StripPunctuation(word)) == Some(e)
    requires IsAscii(word) && e[0] as int >= 128
    requires prev != Some(e)
    ensures EmojiToAdd(table, word, prev) == Some(e)
    ensures EmojifyWord(table, word, prev) == e + " " + word
  {
    AsciiLacks(word, e);
  }

  /** A word right after its own emoji gets no second one. */
  lemma Suppressed(table: map<string, string>, word: string, e: string)
    requires Lookup(table, StripPunctuation(word)) == Some(e)
    ensures EmojifyWord(table, word, Some(e)) == word
  {
  }

  predicate IsLetters(s: string) {
    forall i :: 0 <= i < |s| ==> 'a' <= s[i] <= 'z' || 'A' <= s[i] <= 'Z'
  }

  /** A word of letters has no punctuation to strip. */
  lemma StripLetters(w: string)
    requires IsLetters(w)
    ensures StripPunctuation(w) == w
  {
    forall i | 0 <= i < |w|
      ensures w[i] !in Punctuation
    {
      LetterNotPunctuation(w[i]);
    }
  }

  lemma LetterNotPunctuation(c: char)
    requires 'a' <= c <= 'z' || 'A' <= c <= 'Z'
    ensures c !in Punctuation
  {
  }

  /** A word of letters followed by one punctuation character is looked up
      as the word. */
  lemma StripTrailing(w: string, c: char)
    requires IsLetters(w) && c in Punctuation
    ensures StripPunctuation(w + [c]) == w
  {
    StripLetters(w);
    StripAppend(w, [c]);
    StripOne(c);
  }

  /** A word whose lower-cased form is a trimmed key with a value is found
      with that value. */
  lemma LookupAs(table: map<string, string>, word: string, key: string)
    requires ToLower(word) == key && IsTrimmed(key) && key in table && table[key] != []
    ensures Lookup(table, word) == Some(table[key])
  {
    KeyWord(word, key);
    LookupByKey(table, word, key);
  }

  /** A word ending in `s` whose lower-cased form is a trimmed non-key, and
      whose singular is a key with a value, is found with that value. */
  lemma LookupPluralAs(table: map<string, string>, word: string, key: string)
    requires ToLower(word) == key && IsTrimmed(key) && key !in table
    requires EndsWithS(key) && DropLast(key) in table && table[DropLast(key)] != []
    ensures Lookup(table, word) == Some(table[DropLast(key)])
  {
    KeyWord(word, key);
    LookupByKey(table, word, key);
  }

  lemma UserKey()
    ensures ToLower("User") == "user" && IsTrimmed("user")
  {
    LowerCapitalised("User");
  }

  lemma SaveKey()
    ensures ToLower("save") == "save" && IsTrimmed("save")
  {
  }

  lemma SavesKey()
    ensures ToLower("saves") == "saves" && IsTrimmed("saves")
    ensures EndsWithS("saves") && DropLast("saves") == "save"
  {
  }

  /** Lower-casing a capitalised word only changes its first letter. */
  lemma LowerCapitalised(w: string)
    requires w != [] && 'A' <= w[0] <= 'Z'
    requires forall i :: 1 <= i < |w| ==> 'a' <= w[i] <= 'z'
    ensures ToLower(w) == [(w[0] - 'A' + 'a') as char] + w[1..]
  {
  }

  lemma DatabaseKey()
    ensures ToLower("Database") == "database" && IsTrimmed("database")
  {
    LowerCapitalised("Database");
  }

  lemma LookupUser(table: map<string, string>)
    requires "user" in table && table["user"] != []
    ensures Lookup(table, "User") == Some(table["user"])
  {
    UserKey();
    LookupAs(table, "User", "user");
  }

  lemma LookupSave(table: map<string, string>)
    requires "save" in table && table["save"] != [] && "saves" !in table
    ensures Lookup(table, "save") == Some(table["save"])
    ensures Lookup(table, "saves") == Some(table["save"])
  {
    SaveKey();
    SavesKey();
    LookupAs(table, "save", "save");
    LookupPluralAs(table, "saves", "saves");
  }

  lemma LookupDatabase(table: map<string, string>)
    requires "database" in table && table["database"] != []
    ensures Lookup(table, "Database") == Some(table["database"])
  {
    DatabaseKey();
    LookupAs(table, "Database", "database");
  }

  /** Whitespace-free words joined by single spaces split back into them. */
  lemma SplitWords(words: seq<string>, sentence: string)
    requires SplitShaped(words) && sentence == JoinWithSpaces(words)
    ensures SplitOnSpaces(sentence) == words
  {
    SplitJoin(words);
  }

  lemma JoinTwo(x: string, y: string)
    ensures JoinWithSpaces([x, y]) == x + " " + y
  {
    assert [x, y][1..] == [y];
  }

  lemma JoinCons(x: string, rest: seq<string>)
    requires rest != []
    ensures JoinWithSpaces([x] + rest) == x + " " + JoinWithSpaces(rest)
  {
    assert ([x] + rest)[1..] == rest;
  }

  lemma MapCons(table: map<string, string>, w: string, rest: seq<string>, prev: Option<string>)
    ensures EmojifyWords(table, [w] + rest, prev) ==
      [EmojifyWord(table, w, prev)] + EmojifyWords(table, rest, Some(w))
  {
    assert ([w] + rest)[1..] == rest;
  }

  lemma MapOne(table: map<string, string>, d: string, p: Option<string>)
    ensures EmojifyWords(table, [d], p) == [EmojifyWord(table, d, p)]
  {
  }

  lemma MapTwo(table: map<string, string>, c: string, d: string, p: Option<string>)
    ensures EmojifyWords(table, [c, d], p) == [EmojifyWord(table, c, p), EmojifyWord(table, d, Some(c))]
  {
    assert [c, d][1..] == [d];
    MapOne(table, d, Some(c));
  }

  /** A sentence of two words, split on the single space between them. */
  lemma TwoWords(table: map<string, string>, a: string, b: string, sentence: string)
    requires NoSpace(a) && NoSpace(b) && sentence == a + " " + b
    ensures Emojify(table, sentence) ==
      EmojifyWord(table, a, None) + " " + EmojifyWord(table, b, Some(a))
  {
    JoinTwo(a, b);
    SplitWords([a, b], sentence);
    MapTwo(table, a, b, None);
    JoinTwo(EmojifyWord(table, a, None), EmojifyWord(table, b, Some(a)));
  }

  /** A word whose lookup finds nothing stays as it is. */
  lemma Unchanged(table: map<string, string>, word: string, prev: Option<string>)
    requires Lookup(table, StripPunctuation(word)) == None
    ensures EmojifyWord(table, word, prev) == word
  {
  }

  /** A word right after its own emoji, the case of `"👤 User"`, stays as it
      is: the emoji is not recognised as a word, and the word gets no second
      emoji because the word before it is its emoji. */
  lemma DecoratedExample(table: map<string, string>, e: string, w: string, sentence: string)
    requires NoSpace(e) && Lookup(table, StripPunctuation(e)) == None
    requires NoSpace(w) && Lookup(table, StripPunctuation(w)) == Some(e)
    requires sentence == e + " " + w
    ensures Emojify(table, sentence) == sentence
  {
    TwoWords(table, e, w, sentence);
    Unchanged(table, e, None);
    Suppressed(table, w, e);
  }

  /** `"👤 User"` with any table in which `user` maps to 👤 and 👤 is no word. */
  lemma KeepsUser(table: map<string, string>)
    requires "user" in table && table["user"] == "👤"
    requires NoSpace("👤") && Lookup(table, StripPunctuation("👤")) == None
    ensures Emojify(table, "👤 User") == "👤 User"
  {
    UserLooksUp(table);
    UserWords();
    DecoratedExample(table, "👤", "User", "👤 User");
  }

  lemma UserLooksUp(table: map<string, string>)
    requires "user" in table && table["user"] != []
    ensures Lookup(table, StripPunctuation("User")) == Some(table["user"])
  {
    UserLetters();
    StripLetters("User");
    LookupUser(table);
  }

  lemma UserWords()
    ensures NoSpace("User") && "👤 User" == "👤" + " " + "User"
  {
  }

  /** `emojifySentence("👤 User")` is `"👤 User"`: no double prefix. */
  lemma EmojifySentenceKeepsUser()
    ensures EmojifySentence("👤 User") == "👤 User"
  {
    EmojiMapUserOk();
    KeepsUser(EmojiMap);
  }

  lemma EmojiMapUserOk()
    ensures "user" in EmojiMap && EmojiMap["user"] == "👤"
    ensures NoSpace("👤") && Lookup(EmojiMap, StripPunctuation("👤")) == None
  {
    EmojiMapOk();
    EmojiMapFound();
    assert EntryOk(EmojiMap, "user");
  }

  /** `emojifySentence` from a given previous word on: the words of the
      sentence, each seeing the input word before it. */
  function EmojifyFrom(table: map<string, string>, sentence: string, prev: Option<string>): string {
    JoinWithSpaces(EmojifyWords(table, SplitOnSpaces(sentence), prev))
  }

  /** A sentence is emojified one word at a time: the first word, a space,
      then the rest, whose first word sees the first as its previous word. */
  lemma ConsWord(table: map<string, string>, w: string, rest: string, prev: Option<string>)
    requires NoSpace(w) && rest != [] && !IsSpace(rest[0])
    ensures EmojifyFrom(table, w + " " + rest, prev) ==
      EmojifyWord(table, w, prev) + " " + EmojifyFrom(table, rest, Some(w))
  {
    var s := w + " " + rest;
    assert forall i :: 0 <= i < |w| ==> s[i] == w[i];
    assert s[|w|] == ' ';
    assert NextSpace(s, 0) == |w|;
    assert s[|w| + 1] == rest[0];
    assert SpacesEnd(s, |w| + 1) == |w| + 1;
    assert SpacesEnd(s, |w|) == |w| + 1;
    assert s[..|w|] == w && s[|w| + 1..] == rest;
    var words := SplitOnSpaces(rest);
    assert SplitOnSpaces(s) == [w] + words;
    MapCons(table, w, words, prev);
    JoinCons(EmojifyWord(table, w, prev), EmojifyWords(table, words, Some(w)));
  }

  /** The last word of a sentence is emojified on its own. */
  lemma LastWord(table: map<string, string>, w: string, prev: Option<string>)
    requires NoSpace(w)
    ensures EmojifyFrom(table, w, prev) == EmojifyWord(table, w, prev)
  {
    assert NextSpace(w, 0) == |w|;
    MapOne(table, w, prev);
  }

  /** The facts `emojifySentence` uses about a word that gets the emoji `e`:
      it is ASCII, has no whitespace, and its lookup finds `e`, an emoji
      starting outside ASCII. */
  predicate GetsEmoji(table: map<string, string>, w: string, e: string) {
    && w != [] && NoSpace(w) && IsAscii(w)
    && Lookup(table, StripPunctuation(w)) == Some(e) && e[0] as int >= 128
  }

  lemma GetsEmojiIntro(table: map<string, string>, w: string, e: string)
    requires w != [] && NoSpace(w) && IsAscii(w)
    requires Lookup(table, StripPunctuation(w)) == Some(e) && e[0] as int >= 128
    ensures GetsEmoji(table, w, e)
  {
  }

  /** An ASCII word without whitespace whose lookup finds nothing. */
  predicate GetsNone(table: map<string, string>, w: string) {
    w != [] && NoSpace(w) && IsAscii(w) && Lookup(table, StripPunctuation(w)) == None
  }

  lemma GetsNoneIntro(table: map<string, string>, w: string)
    requires w != [] && NoSpace(w) && IsAscii(w) && Lookup(table, StripPunctuation(w)) == None
    ensures GetsNone(table, w)
  {
  }

  lemma EmojifyIsFrom(table: map<string, string>, sentence: string)
    ensures Emojify(table, sentence) == EmojifyFrom(table, sentence, None)
  {
  }

  lemma GetsEmojiAdded(table: map<string, string>, w: string, e: string, prev: Option<string>)
    requires GetsEmoji(table, w, e)
    requires prev == None || (prev.Some? && prev.value != [] && IsAscii(prev.value))
    ensures EmojifyWord(table, w, prev) == e + " " + w
  {
    if prev.Some? {
      assert prev.value[0] != e[0];
    }
    Prefixed(table, w, prev, e);
  }

  /** Three ASCII words, the first two getting an emoji, the last getting
      none: the shape of `"User saves to Database"` from the second word on. */
  lemma TailTwo(table: map<string, string>, c: string, d: string, ed: string, prev: string)
    requires GetsNone(table, c) && GetsEmoji(table, d, ed)
    ensures EmojifyFrom(table, c + " " + d, Some(prev)) == c + " " + (ed + " " + d)
  {
    ConsWord(table, c, d, Some(prev));
    Unchanged(table, c, Some(prev));
    LastWord(table, d, Some(c));
    GetsEmojiAdded(table, d, ed, Some(c));
  }

  lemma TailThree(table: map<string, string>, b: string, c: string, d: string, eb: string, ed: string, prev: string)
    requires prev != [] && IsAscii(prev)
    requires GetsEmoji(table, b, eb) && GetsNone(table, c) && GetsEmoji(table, d, ed)
    ensures EmojifyFrom(table, b + " " + (c + " " + d), Some(prev)) ==
      (eb + " " + b) + " " + (c + " " + (ed + " " + d))
  {
    ConsWord(table, b, c + " " + d, Some(prev));
    GetsEmojiAdded(table, b, eb, Some(prev));
    TailTwo(table, c, d, ed, b);
  }

  /** The shape of `"User saves to Database"`: four ASCII words, every one
      but the third with an emoji of its own. */
  lemma FourWordSentence(table: map<string, string>, a: string, b: string, c: string, d: string,
                         ea: string, eb: string, ed: string, sentence: string)
    requires GetsEmoji(table, a, ea) && GetsEmoji(table, b, eb) && GetsNone(table, c) && GetsEmoji(table, d, ed)
    requires sentence == a + " " + (b + " " + (c + " " + d))
    ensures Emojify(table, sentence) == ea + " " + a + " " + eb + " " + b + " " + c + " " + ed + " " + d
  {
    EmojifyIsFrom(table, sentence);
    ConsWord(table, a, b + " " + (c + " " + d), None);
    GetsEmojiAdded(table, a, ea, None);
    TailThree(table, b, c, d, eb, ed, a);
    FourJoined(ea, a, eb, b, c, ed, d);
  }

  lemma FourJoined(ea: string, a: string, eb: string, b: string, c: string, ed: string, d: string)
    ensures (ea + " " + a) + " " + ((eb + " " + b) + " " + (c + " " + (ed + " " + d))) ==
      ea + " " + a + " " + eb + " " + b + " " + c + " " + ed + " " + d
  {
  }

  /** The shape of `"User, save!"`: two ASCII words with an emoji each. */
  lemma TwoWordSentence(table: map<string, string>, a: string, b: string, ea: string, eb: string, sentence: string)
    requires GetsEmoji(table, a, ea) && GetsEmoji(table, b, eb)
    requires sentence == a + " " + b
    ensures Emojify(table, sentence) == ea + " " + a + " " + eb + " " + b
  {
    EmojifyIsFrom(table, sentence);
    ConsWord(table, a, b, None);
    GetsEmojiAdded(table, a, ea, None);
    LastWord(table, b, Some(a));
    GetsEmojiAdded(table, b, eb, Some(a));
    TwoJoined(ea, a, eb, b);
  }

  lemma TwoJoined(ea: string, a: string, eb: string, b: string)
    ensures (ea + " " + a) + " " + (eb + " " + b) == ea + " " + a + " " + eb + " " + b
  {
  }

  /** What the sentence tests need of a table: `user`, `save` and `database`
      map to emoji that start outside ASCII, and `saves` and `to` are no keys. */
  predicate TestTable(table: map<string, string>) {
    && "user" in table && "save" in table && "database" in table
    && "saves" !in table && "to" !in table
    && table["user"] != [] && table["user"][0] as int >= 128
    && table["save"] != [] && table["save"][0] as int >= 128
    && table["database"] != [] && table["database"][0] as int >= 128
  }

  lemma EmojiMapTest()
    ensures TestTable(EmojiMap)
    ensures EmojiMap["user"] == "👤" && EmojiMap["save"] == "💾" && EmojiMap["database"] == "🗄️"
  {
    EmojiMapEntries();
  }

  lemma UserGets(table: map<string, string>)
    requires TestTable(table)
    ensures GetsEmoji(table, "User", table["user"])
  {
    UserLooksUp(table);
    WordFacts("User");
    GetsEmojiIntro(table, "User", table["user"]);
  }

  lemma SavesGets(table: map<string, string>)
    requires TestTable(table)
    ensures GetsEmoji(table, "saves", table["save"])
  {
    SavesLooksUp(table);
    WordFacts("saves");
    GetsEmojiIntro(table, "saves", table["save"]);
  }

  lemma DatabaseGets(table: map<string, string>)
    requires TestTable(table)
    ensures GetsEmoji(table, "Database", table["database"])
  {
    DatabaseLooksUp(table);
    WordFacts("Database");
    GetsEmojiIntro(table, "Database", table["database"]);
  }

  lemma SavesLooksUp(table: map<string, string>)
    requires "save" in table && table["save"] != [] && "saves" !in table
    ensures Lookup(table, StripPunctuation("saves")) == Some(table["save"])
  {
    SavesLetters();
    StripLetters("saves");
    LookupSave(table);
  }

  lemma UserLetters()
    ensures IsLetters("User")
  {
  }

  lemma SavesLetters()
    ensures IsLetters("saves")
  {
  }

  lemma ToLetters()
    ensures IsLetters("to")
  {
  }

  lemma DatabaseLetters()
    ensures IsLetters("Database")
  {
  }

  lemma DatabaseLooksUp(table: map<string, string>)
    requires "database" in table && table["database"] != []
    ensures Lookup(table, StripPunctuation("Database")) == Some(table["database"])
  {
    DatabaseLetters();
    StripLetters("Database");
    LookupDatabase(table);
  }

  lemma ToGetsNone(table: map<string, string>)
    requires TestTable(table)
    ensures GetsNone(table, "to")
  {
    ToLooksUp(table);
    WordFacts("to");
    GetsNoneIntro(table, "to");
  }

  lemma ToLooksUp(table: map<string, string>)
    requires "to" !in table
    ensures Lookup(table, StripPunctuation("to")) == None
  {
    ToLetters();
    StripLetters("to");
    KeyWord("to", "to");
    LookupByKey(table, "to", "to");
  }

  /** A word of the tests is non-empty, ASCII and free of whitespace. */
  lemma WordFacts(w: string)
    requires w in ["User", "saves", "to", "Database", "User,", "save!"]
    ensures w != [] && NoSpace(w) && IsAscii(w)
  {
  }

  lemma SentenceWords(eu: string, es: string, ed: string)
    ensures "User saves to Database" == "User" + " " + ("saves" + " " + ("to" + " " + "Database"))
    ensures eu + " " + "User" + " " + es + " " + "saves" + " " + "to" + " " + ed + " " + "Database" ==
            eu + " User " + es + " saves to " + ed + " Database"
  {
  }

  /** `"User saves to Database"` with a table fit for the test: each word
      but `to` gets its emoji, `saves` through the plural fallback. */
  lemma SentenceIn(table: map<string, string>, eu: string, es: string, ed: string)
    requires TestTable(table)
    requires table["user"] == eu && table["save"] == es && table["database"] == ed
    ensures Emojify(table, "User saves to Database") ==
      eu + " User " + es + " saves to " + ed + " Database"
  {
    UserGets(table);
    SavesGets(table);
    ToGetsNone(table);
    DatabaseGets(table);
    SentenceWords(eu, es, ed);
    FourWordSentence(table, "User", "saves", "to", "Database", eu, es, ed, "User saves to Database");
  }

  lemma SentenceText()
    ensures "👤" + " User " + "💾" + " saves to " + "🗄️" + " Database" == "👤 User 💾 saves to 🗄️ Database"
  {
  }

  /** `emojifySentence("User saves to Database")` is
      `"👤 User 💾 saves to 🗄️ Database"`. */
  lemma EmojifySentenceExample()
    ensures EmojifySentence("User saves to Database") == "👤 User 💾 saves to 🗄️ Database"
  {
    EmojiMapTest();
    SentenceIn(EmojiMap, "👤", "💾", "🗄️");
    SentenceText();
  }

  lemma UserCommaGets(table: map<string, string>)
    requires TestTable(table)
    ensures GetsEmoji(table, "User,", table["user"])
  {
    StripTrailing("User", ',');
    assert "User" + [','] == "User,";
    LookupUser(table);
    WordFacts("User,");
    GetsEmojiIntro(table, "User,", table["user"]);
  }

  lemma SaveBangGets(table: map<string, string>)
    requires TestTable(table)
    ensures GetsEmoji(table, "save!", table["save"])
  {
    StripTrailing("save", '!');
    assert "save" + ['!'] == "save!";
    LookupSave(table);
    WordFacts("save!");
    GetsEmojiIntro(table, "save!", table["save"]);
  }

  lemma PunctuationWords(eu: string, es: string)
    ensures "User, save!" == "User," + " " + "save!"
    ensures eu + " " + "User," + " " + es + " " + "save!" == eu + " User, " + es + " save!"
  {
  }

  /** `"User, save!"` with a table fit for the test: punctuation is
      stripped for the lookup only, and stays in the result. */
  lemma PunctuationIn(table: map<string, string>, eu: string, es: string)
    requires TestTable(table)
    requires table["user"] == eu && table["save"] == es
    ensures Emojify(table, "User, save!") == eu + " User, " + es + " save!"
  {
    UserCommaGets(table);
    SaveBangGets(table);
    PunctuationWords(eu, es);
    TwoWordSentence(table, "User,", "save!", eu, es, "User, save!");
  }

  lemma PunctuationText()
    ensures "👤" + " User, " + "💾" + " save!" == "👤 User, 💾 save!"
  {
  }

  /** `emojifySentence("User, save!")` is `"👤 User, 💾 save!"`. */
  lemma EmojifySentencePunctuation()
    ensures EmojifySentence("User, save!") == "👤 User, 💾 save!"
  {
    EmojiMapTest();
    PunctuationIn(EmojiMap, "👤", "💾");
    PunctuationText();
  }
}
