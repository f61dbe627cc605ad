/**
 * The category legend (components/Legend.tsx): the icon chosen for a
 * category name, and the list of categories, one per distinct category in
 * the order they first occur, each with a title-cased name, the colour of its
 * first activity and its icon.
 */
module Legend {
  import opened Wrappers
  import opened Js
  import opened ScheduleTypes
  import CalendarGrid

  // ---------------------------------------------------------------------
  // Icons
  // ---------------------------------------------------------------------

  /** `iconMap`, in declaration order (the order `Object.entries` walks it). */
  const IconTable: seq<(string, string)> := [
    ("gym", "💪"), ("workout", "💪"), ("exercise", "💪"), ("fitness", "💪"),
    ("learning", "🧠"), ("study", "📚"), ("ai-learning", "🧠"), ("work", "💻"),
    ("office", "💻"), ("job", "💼"), ("job-apps", "💼"), ("job-search", "💼"),
    ("family", "👨\U{200D}👩\U{200D}👧"), ("sleep", "😴"), ("rest", "😴"), ("breakfast", "🍳"),
    ("lunch", "🍽\U{FE0F}"), ("dinner", "🍽\U{FE0F}"), ("meal", "🍽\U{FE0F}"), ("commute", "🚗"),
    ("travel", "✈\U{FE0F}"), ("music", "🎵"), ("guitar", "🎸"), ("hobby", "🎨"),
    ("project", "🚀"), ("side-project", "🚀"), ("personal", "✨"), ("meditation", "🧘"),
    ("yoga", "🧘"), ("reading", "📖"), ("writing", "✍\U{FE0F}"), ("podcast", "🎙\U{FE0F}"),
    ("meeting", "🤝"), ("cooking", "👨\U{200D}🍳")]

  const DefaultIcon: string := "📌"

  /** A key of the table. */
  predicate HasKey(table: seq<(string, string)>, key: string) {
    exists j :: 0 <= j < |table| && table[j].0 == key
  }

  /** Looking a key up in a table: the position of its first entry, if any. */
  function Lookup(table: seq<(string, string)>, key: string): (r: Option<nat>)
    ensures r.Some? ==> r.value < |table| && table[r.value].0 == key
    ensures r.Some? ==> forall j :: 0 <= j < r.value ==> table[j].0 != key
    ensures r.None? ==> forall j :: 0 <= j < |table| ==> table[j].0 != key
  {
    if table == [] then None
    else if table[0].0 == key then Some(0)
    else
      var rest := Lookup(table[1..], key);
      if rest.Some? then Some(rest.value + 1) else None
  }

  /** The first entry, in table order, whose key occurs inside `text`. */
  function FirstIncluded(table: seq<(string, string)>, text: string): (r: Option<nat>)
    ensures r.Some? ==> r.value < |table| && Includes(text, table[r.value].0)
    ensures r.Some? ==> forall j :: 0 <= j < r.value ==> !Includes(text, table[j].0)
    ensures r.None? ==> forall j :: 0 <= j < |table| ==> !Includes(text, table[j].0)
  {
    if table == [] then None
    else if Includes(text, table[0].0) then Some(0)
    else
      var rest := FirstIncluded(table[1..], text);
      if rest.Some? then Some(rest.value + 1) else None
  }

  /**
   * The icon a table gives a name: on the lower-cased name, the icon of an
   * identical key, else the icon of the first key (in table order) contained
   * in the name, else the pin.
   */
  function IconFrom(table: seq<(string, string)>, category: string): (icon: string)
    ensures icon == DefaultIcon || exists j :: 0 <= j < |table| && table[j].1 == icon
  {
    var lower := ToLower(category);
    var exact := Lookup(table, lower);
    if exact.Some? then table[exact.value].1
    else
      var partial := FirstIncluded(table, lower);
      if partial.Some? then table[partial.value].1 else DefaultIcon
  }

  /** `getIconForCategory`. */
  function IconForCategory(category: string): (icon: string)
    ensures icon == DefaultIcon || exists j :: 0 <= j < |IconTable| && IconTable[j].1 == icon
  {
    IconFrom(IconTable, category)
  }

  /** The exact lookup, then the early-return search over the entries. */
  method IconSearch(table: seq<(string, string)>, category: string) returns (icon: string)
    ensures icon == IconFrom(table, category)
  {
    var lower := ToLower(category);
    var exact := Lookup(table, lower);
    if exact.Some? {
      return table[exact.value].1;
    }
    var i := 0;
    while i < |table|
      invariant 0 <= i <= |table|
      invariant forall j :: 0 <= j < i ==> !Includes(lower, table[j].0)
    {
      if Includes(lower, table[i].0) {
        var found := FirstIncluded(table, lower);
        assert found.Some? && found.value == i;
        return table[i].1;
      }
      i := i + 1;
    }
    return DefaultIcon;
  }

  method GetIconForCategory(category: string) returns (icon: string)
    ensures icon == IconForCategory(category)
  {
    icon := IconSearch(IconTable, category);
  }

  /** A name equal to a key, ignoring case, gets that key's icon. */
  lemma ExactKeyWins(table: seq<(string, string)>, category: string, j: nat)
    requires j < |table| && ToLower(category) == table[j].0
    requires forall k :: 0 <= k < j ==> table[k].0 != table[j].0
    ensures IconFrom(table, category) == table[j].1
  {
    var exact := Lookup(table, ToLower(category));
    assert exact.Some? && exact.value == j;
  }

  /**
   * A name that is no key but contains one gets the icon of the first
   * contained key in table order, even when a later key fits it better.
   */
  lemma FirstContainedKeyWins(table: seq<(string, string)>, category: string, j: nat)
    requires !HasKey(table, ToLower(category))
    requires j < |table| && Includes(ToLower(category), table[j].0)
    requires forall k :: 0 <= k < j ==> !Includes(ToLower(category), table[k].0)
    ensures IconFrom(table, category) == table[j].1
  {
    var partial := FirstIncluded(table, ToLower(category));
    assert partial.Some? && partial.value == j;
  }

  /** A name that contains no key gets the pin. */
  lemma NoKeyGivesPin(table: seq<(string, string)>, category: string)
    requires forall j :: 0 <= j < |table| ==> !Includes(ToLower(category), table[j].0)
    ensures IconFrom(table, category) == DefaultIcon
  {
    var lower := ToLower(category);
    var exact := Lookup(table, lower);
    if exact.Some? {
      assert OccursAt(lower, table[exact.value].0, 0);
    }
  }

  // ---------------------------------------------------------------------
  // Display names
  // ---------------------------------------------------------------------

  /** `word.charAt(0).toUpperCase() + word.slice(1)`. */
  function CapitalizeWord(word: string): (r: string)
    ensures |r| == |word|
    ensures word != [] ==> r[0] == UpperChar(word[0]) && r[1..] == word[1..]
  {
    if word == [] then [] else [UpperChar(word[0])] + word[1..]
  }

  function CapitalizedWords(words: seq<string>): (r: seq<string>)
    ensures |r| == |words|
    ensures forall k :: 0 <= k < |words| ==> r[k] == CapitalizeWord(words[k])
  {
    seq(|words|, k requires 0 <= k < |words| => CapitalizeWord(words[k]))
  }

  /** The legend's name for a category: its "-"-separated words capitalised and joined by spaces. */
  function DisplayName(category: string): string {
    Join(CapitalizedWords(Split(category, '-')), " ")
  }

  /**
   * For a category without spaces, the display name splits at its spaces into
   * exactly the category's "-"-separated words, each with its first letter
   * upper-cased and the rest unchanged.
   */
  lemma DisplayNameWords(category: string)
    requires ' ' !in category
    ensures Split(DisplayName(category), ' ') == CapitalizedWords(Split(category, '-'))
  {
    var words := Split(category, '-');
    var caps := CapitalizedWords(words);
    forall k | 0 <= k < |caps|
      ensures ' ' !in caps[k]
    {
      WordOfCategory(category, words, k);
      CapitalizeAvoidsSpace(words[k]);
    }
    SplitJoin(caps, ' ');
  }

  lemma WordOfCategory(category: string, words: seq<string>, k: nat)
    requires words == Split(category, '-') && k < |words| && ' ' !in category
    ensures ' ' !in words[k]
  {
    if ' ' in words[k] {
      JoinedPartIn(words, "-", k, ' ');
    }
  }

  /** A character of one part of a join is a character of the join. */
  lemma {:induction false} JoinedPartIn(parts: seq<string>, sep: string, k: nat, c: char)
    requires k < |parts| && c in parts[k]
    ensures c in Join(parts, sep)
  {
    if |parts| > 1 && k > 0 {
      JoinedPartIn(parts[1..], sep, k - 1, c);
    }
  }

  lemma CapitalizeAvoidsSpace(word: string)
    requires ' ' !in word
    ensures ' ' !in CapitalizeWord(word)
  {
    if word != [] {
      assert CapitalizeWord(word) == [UpperChar(word[0])] + word[1..];
      assert word == [word[0]] + word[1..];
    }
  }

  // ---------------------------------------------------------------------
  // Legend entries
  // ---------------------------------------------------------------------

  predicate HasCategory(activities: seq<Activity>, category: string) {
    exists i :: 0 <= i < |activities| && activities[i].category == category
  }

  /** The first activity of a category. */
  function FirstIndexOf(activities: seq<Activity>, category: string): (i: nat)
    requires HasCategory(activities, category)
    ensures i < |activities| && activities[i].category == category
    ensures forall j :: 0 <= j < i ==> activities[j].category != category
  {
    if activities[0].category == category then 0
    else
      assert HasCategory(activities[1..], category) by {
        var i :| 0 <= i < |activities| && activities[i].category == category;
        assert activities[1..][i - 1] == activities[i];
      }
      FirstIndexOf(activities[1..], category) + 1
  }

  /** The distinct categories in the order they first occur (the keys of `categoryMap`). */
  function CategoryKeys(activities: seq<Activity>): (keys: seq<string>)
    ensures forall k :: 0 <= k < |keys| ==> HasCategory(activities, keys[k])
    ensures forall i :: 0 <= i < |activities| ==> activities[i].category in keys
    ensures forall p, q :: 0 <= p < q < |keys| ==> keys[p] != keys[q]
    decreases |activities|
  {
    if activities == [] then []
    else
      var prefix := activities[..|activities| - 1];
      var prev := CategoryKeys(prefix);
      var c := activities[|activities| - 1].category;
      assert forall i :: 0 <= i < |prefix| ==> prefix[i] == activities[i];
      if c in prev then prev else prev + [c]
  }

  /** The keys follow the first occurrences: an earlier key's first activity comes earlier. */
  lemma {:induction false} KeysInFirstOccurrenceOrder(activities: seq<Activity>, p: nat, q: nat)
    requires p < q < |CategoryKeys(activities)|
    ensures FirstIndexOf(activities, CategoryKeys(activities)[p]) < FirstIndexOf(activities, CategoryKeys(activities)[q])
    decreases |activities|
  {
    var n := |activities| - 1;
    var prefix := activities[..n];
    var keys := CategoryKeys(activities);
    var prev := CategoryKeys(prefix);
    var c := activities[n].category;
    assert keys == if c in prev then prev else prev + [c];
    assert p < |prev| && keys[p] == prev[p];
    FirstIndexInPrefix(activities, n, keys[p]);
    if q < |prev| {
      assert keys[q] == prev[q];
      FirstIndexInPrefix(activities, n, keys[q]);
      KeysInFirstOccurrenceOrder(prefix, p, q);
    } else {
      assert keys[q] == c && c !in prev;
      assert !HasCategory(prefix, c);
      NewCategoryComesLast(prefix, activities, c);
    }
  }

  /** A category already present in a prefix has its first activity there. */
  lemma FirstIndexInPrefix(activities: seq<Activity>, n: nat, category: string)
    requires n <= |activities| && HasCategory(activities[..n], category)
    ensures HasCategory(activities, category)
    ensures FirstIndexOf(activities, category) == FirstIndexOf(activities[..n], category)
  {
    var i := FirstIndexOf(activities[..n], category);
    assert activities[i] == activities[..n][i];
    assert forall j :: 0 <= j < i ==> activities[j] == activities[..n][j];
  }

  /** The entry of a category, made from its first activity. */
  function EntryOf(a: Activity): (e: CategoryInfo)
    ensures e.name == DisplayName(a.category) && e.color == a.color && e.icon == IconForCategory(a.category)
  {
    CategoryInfo(DisplayName(a.category), a.color, IconForCategory(a.category))
  }

  /** One entry per distinct category, in first-occurrence order, each from the category's first activity. */
  function LegendEntries(activities: seq<Activity>): (entries: seq<CategoryInfo>)
    ensures |entries| == |CategoryKeys(activities)|
    ensures forall k :: 0 <= k < |entries| ==>
              entries[k] == EntryOf(activities[FirstIndexOf(activities, CategoryKeys(activities)[k])])
  {
    EntriesBy(activities, EntryOf)
  }

  /** The entries of the distinct categories, each made by `entry` from the category's first activity. */
  function EntriesBy(activities: seq<Activity>, entry: Activity -> CategoryInfo): (entries: seq<CategoryInfo>)
    ensures |entries| == |CategoryKeys(activities)|
    ensures forall k :: 0 <= k < |entries| ==>
              entries[k] == entry(activities[FirstIndexOf(activities, CategoryKeys(activities)[k])])
  {
    var keys := CategoryKeys(activities);
    seq(|keys|, k requires 0 <= k < |keys| => entry(activities[FirstIndexOf(activities, keys[k])]))
  }

  /** `categories`: nothing without a schedule or without activities. */
  function Categories(schedule: Option<ScheduleResponse>): (entries: seq<CategoryInfo>)
    ensures schedule.None? || schedule.value.activities == [] ==> entries == []
    ensures schedule.Some? ==> entries == LegendEntries(schedule.value.activities)
  {
    if schedule.None? || |schedule.value.activities| == 0 then [] else LegendEntries(schedule.value.activities)
  }

  /** `categoryMap` after the activities of `prefix`: each category's entry made from its first activity. */
  ghost predicate MapOfPrefix(categoryMap: map<string, CategoryInfo>, prefix: seq<Activity>,
                              entry: Activity -> CategoryInfo) {
    (forall c :: c in categoryMap <==> HasCategory(prefix, c))
    && forall c :: c in categoryMap ==> categoryMap[c] == entry(prefix[FirstIndexOf(prefix, c)])
  }

  /** One more activity: its category is added when it is new, and existing entries stay. */
  lemma MapStep(categoryMap: map<string, CategoryInfo>, activities: seq<Activity>, i: nat,
                entry: Activity -> CategoryInfo)
    requires i < |activities| && MapOfPrefix(categoryMap, activities[..i], entry)
    ensures var a := activities[i];
            MapOfPrefix(if a.category in categoryMap then categoryMap else categoryMap[a.category := entry(a)],
                        activities[..i + 1], entry)
  {
    var a := activities[i];
    var prev := activities[..i];
    var next := activities[..i + 1];
    assert next[..i] == prev;
    assert next[i] == a;
    CategoriesOfNext(prev, next);
    if a.category in categoryMap {
      MapKeep(categoryMap, prev, next, entry);
    } else {
      MapAdd(categoryMap, prev, next, entry);
    }
  }

  /** The categories of a prefix extended by one activity: those before, and the new activity's. */
  lemma CategoriesOfNext(prev: seq<Activity>, next: seq<Activity>)
    requires |next| == |prev| + 1 && next[..|prev|] == prev
    ensures forall c :: HasCategory(next, c) <==> HasCategory(prev, c) || c == next[|prev|].category
  {
    forall c | HasCategory(prev, c)
      ensures HasCategory(next, c)
    {
      var j :| 0 <= j < |prev| && prev[j].category == c;
      assert next[j] == prev[j];
    }
    forall c | HasCategory(next, c)
      ensures HasCategory(prev, c) || c == next[|prev|].category
    {
      var j :| 0 <= j < |next| && next[j].category == c;
      if j < |prev| {
        assert prev[j] == next[j];
      }
    }
    assert HasCategory(next, next[|prev|].category);
  }

  /** Adding the entry of a new category keeps the map that of the extended prefix. */
  lemma MapAdd(categoryMap: map<string, CategoryInfo>, prev: seq<Activity>, next: seq<Activity>,
               entry: Activity -> CategoryInfo)
    requires |next| == |prev| + 1 && next[..|prev|] == prev
    requires MapOfPrefix(categoryMap, prev, entry) && next[|prev|].category !in categoryMap
    requires forall c :: HasCategory(next, c) <==> HasCategory(prev, c) || c == next[|prev|].category
    ensures MapOfPrefix(categoryMap[next[|prev|].category := entry(next[|prev|])], next, entry)
  {
    var a := next[|prev|];
    var m := categoryMap[a.category := entry(a)];
    forall c | c in m
      ensures m[c] == entry(next[FirstIndexOf(next, c)])
    {
      if c != a.category {
        EntryKept(categoryMap, prev, next, c, entry);
      } else {
        NewCategoryComesLast(prev, next, c);
      }
    }
  }

  /** A category absent from the first `|next| - 1` activities first occurs at the last one. */
  lemma NewCategoryComesLast(prev: seq<Activity>, next: seq<Activity>, c: string)
    requires |next| == |prev| + 1 && next[..|prev|] == prev && next[|prev|].category == c
    requires !HasCategory(prev, c)
    ensures HasCategory(next, c) && FirstIndexOf(next, c) == |prev|
  {
    assert HasCategory(next, c);
  }

  /** An entry made from a category's first activity in a prefix is also made from its first in a longer one. */
  lemma EntryKept(categoryMap: map<string, CategoryInfo>, prev: seq<Activity>, next: seq<Activity>, c: string,
                  entry: Activity -> CategoryInfo)
    requires MapOfPrefix(categoryMap, prev, entry) && c in categoryMap
    requires |next| >= |prev| && next[..|prev|] == prev
    ensures HasCategory(next, c) && categoryMap[c] == entry(next[FirstIndexOf(next, c)])
  {
    FirstIndexInPrefix(next, |prev|, c);
    var k := FirstIndexOf(prev, c);
    assert next[k] == prev[k];
  }

  /** A category seen before leaves the map that of the extended prefix. */
  lemma MapKeep(categoryMap: map<string, CategoryInfo>, prev: seq<Activity>, next: seq<Activity>,
                entry: Activity -> CategoryInfo)
    requires |next| == |prev| + 1 && next[..|prev|] == prev
    requires MapOfPrefix(categoryMap, prev, entry) && next[|prev|].category in categoryMap
    requires forall c :: HasCategory(next, c) <==> HasCategory(prev, c) || c == next[|prev|].category
    ensures MapOfPrefix(categoryMap, next, entry)
  {
    forall c | c in categoryMap
      ensures categoryMap[c] == entry(next[FirstIndexOf(next, c)])
    {
      EntryKept(categoryMap, prev, next, c, entry);
    }
  }

  /** The keys after one more activity. */
  lemma KeysStep(activities: seq<Activity>, i: nat)
    requires i < |activities|
    ensures var c := activities[i].category;
            var prev := CategoryKeys(activities[..i]);
            CategoryKeys(activities[..i + 1]) == if c in prev then prev else prev + [c]
  {
    assert activities[..i + 1][..i] == activities[..i];
  }

  /** The `forEach` filling `categoryMap`, then `Array.from(categoryMap.values())`. */
  method ExtractCategories(activities: seq<Activity>) returns (entries: seq<CategoryInfo>)
    ensures entries == LegendEntries(activities)
  {
    var order: seq<string> := [];
    var categoryMap: map<string, CategoryInfo> := map[];
    for i := 0 to |activities|
      invariant order == CategoryKeys(activities[..i])
      invariant MapOfPrefix(categoryMap, activities[..i], EntryOf)
    {
      var a := activities[i];
      MapStep(categoryMap, activities, i, EntryOf);
      KeysStep(activities, i);
      OrderTracksMap(categoryMap, activities[..i], a.category, EntryOf);
      if a.category !in categoryMap {
        categoryMap := categoryMap[a.category := EntryOf(a)];
        order := order + [a.category];
      }
    }
    assert activities[..|activities|] == activities;
    entries := Values(order, categoryMap, activities, EntryOf);
  }

  /** A category is a key of the map exactly when it is among the ordered keys. */
  lemma OrderTracksMap(categoryMap: map<string, CategoryInfo>, prefix: seq<Activity>, c: string,
                       entry: Activity -> CategoryInfo)
    requires MapOfPrefix(categoryMap, prefix, entry)
    ensures c in categoryMap <==> c in CategoryKeys(prefix)
  {
    if c in CategoryKeys(prefix) {
      var k :| 0 <= k < |CategoryKeys(prefix)| && CategoryKeys(prefix)[k] == c;
    }
  }

  /** `Array.from(categoryMap.values())`: the entries in key insertion order. */
  function Values(order: seq<string>, categoryMap: map<string, CategoryInfo>, activities: seq<Activity>,
                  entry: Activity -> CategoryInfo): (entries: seq<CategoryInfo>)
    requires order == CategoryKeys(activities) && MapOfPrefix(categoryMap, activities, entry)
    ensures entries == EntriesBy(activities, entry)
  {
    seq(|order|, k requires 0 <= k < |order| => categoryMap[order[k]])
  }
}
