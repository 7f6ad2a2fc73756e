/** The unlock editor for `meta.jkr`: three maps from item id to flag
    (`unlocked`, `discovered`, `alerted`), the locked → discovered →
    unlocked cycle one item goes through, the bulk unlock and lock, the
    listing of one category's items and the counts shown above it. */
module Meta {
  import opened Wrappers
  import opened Text

  datatype ItemState = Locked | Discovered | Unlocked

  /** The three maps as one value. */
  datatype Flags = Flags(unlocked: map<string, bool>, discovered: map<string, bool>, alerted: map<string, bool>)

  /** `m[k] === true`: a missing entry is not true. */
  predicate IsTrue(m: map<string, bool>, k: string)
  {
    k in m && m[k]
  }

  /** `getItemState(id)`. */
  function State(f: Flags, id: string): (s: ItemState)
    ensures s == Unlocked <==> IsTrue(f.unlocked, id)
    ensures s == Discovered <==> IsTrue(f.discovered, id) && !IsTrue(f.unlocked, id)
    ensures s == Locked <==> !IsTrue(f.unlocked, id) && !IsTrue(f.discovered, id)
  {
    if IsTrue(f.unlocked, id) then Unlocked
    else if IsTrue(f.discovered, id) && !IsTrue(f.unlocked, id) then Discovered
    else Locked
  }

  function Next(s: ItemState): ItemState
  {
    match s
    case Locked => Discovered
    case Discovered => Unlocked
    case Unlocked => Locked
  }

  /** The flags after `toggleItem(id)`. */
  function Toggled(f: Flags, id: string): (g: Flags)
    ensures State(g, id) == Next(State(f, id))
    ensures g.unlocked - {id} == f.unlocked - {id}
    ensures g.discovered - {id} == f.discovered - {id}
    ensures g.alerted - {id} == f.alerted - {id}
    ensures State(f, id) == Locked ==> g.alerted == f.alerted
  {
    match State(f, id)
    case Locked =>
      Flags(f.unlocked[id := false], f.discovered[id := true], f.alerted)
    case Discovered =>
      Flags(f.unlocked[id := true], f.discovered[id := true], f.alerted[id := true])
    case Unlocked =>
      Flags(f.unlocked[id := false], f.discovered[id := false], f.alerted[id := false])
  }

  /** Three toggles bring an item back to the state it started in. */
  lemma ToggleCycle(f: Flags, id: string)
    ensures State(Toggled(Toggled(Toggled(f, id), id), id), id) == State(f, id)
  {
    var g := Toggled(f, id);
    var h := Toggled(g, id);
    assert State(Toggled(h, id), id) == Next(Next(Next(State(f, id))));
  }

  /** Toggling one item leaves every other item's state as it was. */
  lemma ToggleOthers(f: Flags, id: string, other: string)
    requires other != id
    ensures State(Toggled(f, id), other) == State(f, other)
  {
    var g := Toggled(f, id);
    assert IsTrue(g.unlocked, other) == IsTrue(f.unlocked, other) by {
      assert other in g.unlocked - {id} <==> other in f.unlocked - {id};
      if other in f.unlocked {
        assert (g.unlocked - {id})[other] == (f.unlocked - {id})[other];
      }
    }
    assert IsTrue(g.discovered, other) == IsTrue(f.discovered, other) by {
      assert other in g.discovered - {id} <==> other in f.discovered - {id};
      if other in f.discovered {
        assert (g.discovered - {id})[other] == (f.discovered - {id})[other];
      }
    }
  }

  function Const(keys: set<string>, b: bool): map<string, bool>
  {
    map k | k in keys :: b
  }

  /** All three flags set to `b` for the given keys. */
  function SetKeys(f: Flags, keys: set<string>, b: bool): Flags
  {
    Flags(f.unlocked + Const(keys, b), f.discovered + Const(keys, b), f.alerted + Const(keys, b))
  }

  lemma ConstStep(m: map<string, bool>, done: set<string>, key: string, b: bool)
    ensures m + Const(done + {key}, b) == (m + Const(done, b))[key := b]
  {
  }

  lemma SetKeysNone(f: Flags, b: bool)
    ensures SetKeys(f, {}, b) == f
  {
    assert f.unlocked + Const({}, b) == f.unlocked;
    assert f.discovered + Const({}, b) == f.discovered;
    assert f.alerted + Const({}, b) == f.alerted;
  }

  /** Setting one more key of those still to do. */
  lemma SetKeysStep(f: Flags, todo: set<string>, key: string, b: bool, g: Flags)
    requires todo <= f.unlocked.Keys && key in todo && g == SetKeys(f, f.unlocked.Keys - todo, b)
    ensures Flags(g.unlocked[key := b], g.discovered[key := b], g.alerted[key := b])
         == SetKeys(f, f.unlocked.Keys - (todo - {key}), b)
  {
    var done := f.unlocked.Keys - todo;
    assert f.unlocked.Keys - (todo - {key}) == done + {key};
    ConstStep(f.unlocked, done, key, b);
    ConstStep(f.discovered, done, key, b);
    ConstStep(f.alerted, done, key, b);
  }

  /** The flags after `unlockAll` (`b` true) or `lockAll` (`b` false):
      every key of `unlocked` gets all three flags set to `b`. */
  function AllSet(f: Flags, b: bool): Flags
  {
    SetKeys(f, f.unlocked.Keys, b)
  }

  /** After `unlockAll` every key of `unlocked` is unlocked, after `lockAll`
      locked; the key set of `unlocked` stays and the entries of the other
      maps for ids outside it are untouched. */
  lemma AllSetEffect(f: Flags, b: bool)
    ensures var g := AllSet(f, b);
      && g.unlocked.Keys == f.unlocked.Keys
      && (forall k :: k in f.unlocked ==> State(g, k) == if b then Unlocked else Locked)
      && g.discovered - f.unlocked.Keys == f.discovered - f.unlocked.Keys
      && g.alerted - f.unlocked.Keys == f.alerted - f.unlocked.Keys
  {
    var g := AllSet(f, b);
    forall k | k in f.unlocked
      ensures State(g, k) == if b then Unlocked else Locked
    {
      assert g.unlocked[k] == b && g.discovered[k] == b;
    }
  }

  /** Unlocking or locking everything twice is the same as once. */
  lemma AllSetIdempotent(f: Flags, b: bool)
    ensures AllSet(AllSet(f, b), b) == AllSet(f, b)
  {
    var g := AllSet(f, b);
    assert g.unlocked.Keys == f.unlocked.Keys;
    assert g.unlocked + Const(g.unlocked.Keys, b) == g.unlocked;
    assert g.discovered + Const(g.unlocked.Keys, b) == g.discovered;
    assert g.alerted + Const(g.unlocked.Keys, b) == g.alerted;
  }

  // -----------------------------------------------------------------------
  // Categories

  datatype CategoryName = Jokers | Tarots | Planets | Spectrals | Vouchers | Decks | Modifiers | Tags | Blinds | ProfileTab

  datatype SubCategory = SubCategory(prefix: string, isSeal: bool)

  datatype Category =
    | Single(prefix: string, filter: Option<seq<string>>, isSeal: bool)
    | Multiple(subcategories: seq<SubCategory>)

  const TarotNames: seq<string> := ["fool", "magician", "high_priestess", "empress", "emperor", "heirophant", "lovers", "chariot", "justice", "hermit", "wheel_of_fortune", "strength", "hanged_man", "death", "temperance", "devil", "tower", "star", "moon", "sun", "judgement", "world"]
  const PlanetNames: seq<string> := ["mercury", "venus", "earth", "mars", "jupiter", "saturn", "uranus", "neptune", "pluto", "planet_x", "ceres", "eris"]
  const SpectralNames: seq<string> := ["familiar", "grim", "incantation", "talisman", "aura", "wraith", "sigil", "ouija", "ectoplasm", "immolate", "ankh", "deja_vu", "hex", "trance", "medium", "cryptid", "soul", "black_hole"]

  /** The category table. The profile tab has no prefix, and
      `startsWith(undefined)` tests for the text `"undefined"`. */
  function CategoryOf(name: CategoryName): Category
  {
    match name
    case Jokers => Single("j_", None, false)
    case Tarots => Single("c_", Some(TarotNames), false)
    case Planets => Single("c_", Some(PlanetNames), false)
    case Spectrals => Single("c_", Some(SpectralNames), false)
    case Vouchers => Single("v_", None, false)
    case Decks => Single("b_", None, false)
    case Modifiers => Multiple([SubCategory("m_", false), SubCategory("e_", false), SubCategory("soul", true)])
    case Tags => Single("tag_", None, false)
    case Blinds => Single("bl_", None, false)
    case ProfileTab => Single("undefined", None, false)
  }

  predicate SubMatches(sub: SubCategory, key: string)
  {
    (sub.isSeal && key == "soul") || (StartsWith(key, sub.prefix) && !StartsWith(key, "p_"))
  }

  /** The tests one key of a single category goes through, in order. */
  predicate SingleMatches(name: CategoryName, prefix: string, filter: Option<seq<string>>, isSeal: bool, key: string)
  {
    if filter.Some? then RemoveFirst(key, prefix) in filter.value
    else if isSeal && key == "soul" then true
    else if StartsWith(key, prefix) && !StartsWith(key, "p_") then
      if name == Tarots || name == Planets || name == Spectrals then false
      else if prefix == "c_" then
        var itemName := RemoveFirst(key, prefix);
        itemName !in PlanetNames && itemName !in SpectralNames
      else true
    else false
  }

  /** The ids `getItemsForCategory(name)` lists. */
  predicate InCategory(f: Flags, name: CategoryName, key: string)
  {
    match CategoryOf(name)
    case Multiple(subs) =>
      key in f.unlocked && exists i :: 0 <= i < |subs| && SubMatches(subs[i], key)
    case Single(prefix, filter, isSeal) =>
      && (key in f.unlocked || key in f.discovered || key in f.alerted)
      && SingleMatches(name, prefix, filter, isSeal, key)
  }

  /** A multi category lists only keys of `unlocked`. */
  lemma MultipleFromUnlocked(f: Flags, name: CategoryName, key: string)
    requires CategoryOf(name).Multiple? && InCategory(f, name, key)
    ensures key in f.unlocked
  {
  }

  /** A category without filter or seal lists only ids with its prefix
      that do not start with `p_`. */
  lemma PrefixCategoryItems(f: Flags, name: CategoryName, key: string)
    requires CategoryOf(name).Single? && CategoryOf(name).filter.None?
    requires InCategory(f, name, key)
    ensures StartsWith(key, CategoryOf(name).prefix) && !StartsWith(key, "p_")
  {
  }

  /** A filter category lists only ids which, with the first occurrence of
      the prefix removed, are in the filter. */
  lemma FilterCategoryItems(f: Flags, name: CategoryName, key: string)
    requires CategoryOf(name).Single? && CategoryOf(name).filter.Some?
    requires InCategory(f, name, key)
    ensures RemoveFirst(key, CategoryOf(name).prefix) in CategoryOf(name).filter.value
  {
  }

  // -----------------------------------------------------------------------
  // Sorted listing

  predicate StrictlySorted(xs: seq<string>)
  {
    forall i, j :: 0 <= i < j < |xs| ==> Less(xs[i], xs[j])
  }

  /** Adding one id to a sorted listing without duplicates: the step that
      `[...new Set(items)].sort()` amounts to. */
  function Insert(xs: seq<string>, x: string): (r: seq<string>)
    requires StrictlySorted(xs)
    ensures StrictlySorted(r)
    ensures forall y :: y in r <==> y in xs || y == x
    decreases |xs|
  {
    if xs == [] then [x]
    else if x == xs[0] then xs
    else if Less(x, xs[0]) then
      assert forall j :: 0 < j < |xs| ==> Less(x, xs[j]) by {
        forall j | 0 < j < |xs| ensures Less(x, xs[j]) {
          LessTransitive(x, xs[0], xs[j]);
        }
      }
      [x] + xs
    else
      var rest := Insert(xs[1..], x);
      LessTotal(x, xs[0]);
      assert forall y :: y in rest ==> Less(xs[0], y);
      [xs[0]] + rest
  }

  lemma TailMember(a: seq<string>, b: seq<string>, x: string)
    requires StrictlySorted(a) && StrictlySorted(b) && a != [] && b != [] && a[0] == b[0]
    requires forall y :: y in a <==> y in b
    requires x in a[1..]
    ensures x in b[1..]
  {
    var i :| 0 <= i < |a[1..]| && a[1..][i] == x;
    assert a[i + 1] == x && Less(a[0], x);
    assert x in a;
    LessIrreflexive(x);
    var j :| 0 <= j < |b| && b[j] == x;
    assert j != 0;
    assert b[1..][j - 1] == x;
  }

  lemma HeadIn(b: seq<string>)
    requires b != []
    ensures b[0] in b
  {
  }

  lemma NoMembers(b: seq<string>)
    requires forall x :: x !in b
    ensures b == []
  {
    if b != [] {
      HeadIn(b);
      assert false;
    }
  }

  /** No member of a sorted listing is below its first element. */
  lemma NotBelowHead(b: seq<string>, x: string)
    requires StrictlySorted(b) && x in b
    ensures !Less(x, b[0])
  {
    var j :| 0 <= j < |b| && b[j] == x;
    LessIrreflexive(x);
    if j > 0 && Less(x, b[0]) {
      LessTransitive(x, b[0], x);
    }
  }

  /** A listing in ascending order without duplicates is fixed by the ids
      it holds, so the order in which keys are visited does not matter. */
  lemma {:induction false} SortedUnique(a: seq<string>, b: seq<string>)
    requires StrictlySorted(a) && StrictlySorted(b)
    requires forall x :: x in a <==> x in b
    ensures a == b
    decreases |a|
  {
    if a != [] && b != [] {
      NotBelowHead(b, a[0]);
      NotBelowHead(a, b[0]);
      LessTotal(a[0], b[0]);
      forall x ensures x in a[1..] <==> x in b[1..] {
        if x in a[1..] {
          TailMember(a, b, x);
        }
        if x in b[1..] {
          TailMember(b, a, x);
        }
      }
      SortedUnique(a[1..], b[1..]);
      assert a == [a[0]] + a[1..] && b == [b[0]] + b[1..];
    } else if a == [] {
      NoMembers(b);
    } else {
      NoMembers(a);
    }
  }

  // -----------------------------------------------------------------------
  // Counts

  function CountState(f: Flags, items: seq<string>, s: ItemState): nat
  {
    if items == [] then 0
    else (if State(f, items[0]) == s then 1 else 0) + CountState(f, items[1..], s)
  }

  datatype Stats = Stats(unlocked: nat, discovered: nat, total: nat)

  lemma {:induction false} CountStatesTotal(f: Flags, items: seq<string>)
    ensures CountState(f, items, Unlocked) + CountState(f, items, Discovered) + CountState(f, items, Locked) == |items|
  {
    if items != [] {
      CountStatesTotal(f, items[1..]);
    }
  }

  /** The counts shown above a listing: items whose `unlocked` is true, and
      items whose `discovered` is true while `unlocked` is not. */
  function StatsOf(f: Flags, items: seq<string>): (r: Stats)
    ensures r.total == |items| && r.unlocked + r.discovered <= r.total
    ensures r.unlocked + r.discovered + CountState(f, items, Locked) == r.total
  {
    CountStatesTotal(f, items);
    Stats(CountState(f, items, Unlocked), CountState(f, items, Discovered), |items|)
  }

  // -----------------------------------------------------------------------
  // Names

  const NamePrefixes: seq<string> := ["j_", "c_", "v_", "b_", "m_", "e_", "tag_", "bl_", "p_"]

  /** `s.replace(/^(p0|p1|…)/, '')`: the first listed prefix that `s` starts
      with is removed, and nothing else. */
  function StripPrefix(s: string, prefixes: seq<string>): (r: string)
    ensures (forall i :: 0 <= i < |prefixes| ==> !StartsWith(s, prefixes[i])) ==> r == s
    ensures r == s || exists i :: 0 <= i < |prefixes| && StartsWith(s, prefixes[i]) && r == s[|prefixes[i]|..]
    ensures forall i ::
              0 <= i < |prefixes| && StartsWith(s, prefixes[i]) &&
              (forall j :: 0 <= j < i ==> !StartsWith(s, prefixes[j]))
              ==> r == s[|prefixes[i]|..]
    decreases |prefixes|
  {
    if prefixes == [] then s
    else if StartsWith(s, prefixes[0]) then s[|prefixes[0]|..]
    else
      var r := StripPrefix(s, prefixes[1..]);
      assert forall i :: 1 <= i < |prefixes| ==> prefixes[1..][i - 1] == prefixes[i];
      r
  }

  function CapitalizeWord(w: string): string
  {
    if w == [] then [] else [Upper(w[0])] + w[1..]
  }

  function CapitalizeAll(words: seq<string>): (r: seq<string>)
    ensures |r| == |words| && forall i :: 0 <= i < |words| ==> r[i] == CapitalizeWord(words[i])
  {
    seq(|words|, i requires 0 <= i < |words| => CapitalizeWord(words[i]))
  }

  /** Split on spaces, capitalise each word, join with spaces. */
  function CapitalizeWords(s: string): string
  {
    Join(CapitalizeAll(Split(s, ' ')), " ")
  }

  /** `formatName(id)`. */
  function FormatName(id: string): string
  {
    CapitalizeWords(ReplaceAll(StripPrefix(id, NamePrefixes), "_", " "))
  }

  /** A word is capitalised at its first character only. */
  lemma CapitalizeWordShape(w: string)
    ensures |CapitalizeWord(w)| == |w|
    ensures forall i :: 0 <= i < |w| ==> CapitalizeWord(w)[i] == if i == 0 then Upper(w[i]) else w[i]
  {
  }

  /** Capitalising the words of a text with a space at `i`. */
  lemma CapitalizeWordsSplit(s: string, i: nat)
    requires IndexOfChar(s, ' ') == Some(i)
    ensures CapitalizeWords(s) == CapitalizeWord(s[..i]) + " " + CapitalizeWords(s[i + 1..])
  {
    var rest := Split(s[i + 1..], ' ');
    var parts := Split(s, ' ');
    assert parts == [s[..i]] + rest;
    var caps := CapitalizeAll(parts);
    assert caps == [CapitalizeWord(s[..i])] + CapitalizeAll(rest);
    assert |CapitalizeAll(rest)| >= 1;
  }

  /** A character is capitalised exactly when it starts the text or
      follows a space; nothing else changes. */
  lemma {:induction false} CapitalizeWordsShape(s: string)
    ensures |CapitalizeWords(s)| == |s|
    ensures forall i :: 0 <= i < |s| ==>
      CapitalizeWords(s)[i] == if i == 0 || s[i - 1] == ' ' then Upper(s[i]) else s[i]
    decreases |s|
  {
    match IndexOfChar(s, ' ')
    case None =>
      assert Split(s, ' ') == [s];
      assert CapitalizeWords(s) == CapitalizeWord(s);
      CapitalizeWordShape(s);
    case Some(i) =>
      var head := s[..i];
      var rest := s[i + 1..];
      CapitalizeWordsSplit(s, i);
      CapitalizeWordShape(head);
      CapitalizeWordsShape(rest);
      var r := CapitalizeWords(s);
      assert r == CapitalizeWord(head) + " " + CapitalizeWords(rest);
      forall k | 0 <= k < |s|
        ensures r[k] == if k == 0 || s[k - 1] == ' ' then Upper(s[k]) else s[k]
      {
        if k < i {
          assert r[k] == CapitalizeWord(head)[k];
          assert head[k] == s[k];
          if k > 0 {
            assert head[k - 1] == s[k - 1];
          }
        } else if k == i {
          assert r[k] == ' ' && s[k] == ' ';
        } else {
          assert r[k] == CapitalizeWords(rest)[k - i - 1];
          assert rest[k - i - 1] == s[k];
          if k > i + 1 {
            assert rest[k - i - 2] == s[k - 1];
          }
        }
      }
  }

  /** The character `formatName` puts at index `i` of the id `t` whose
      prefix is already removed. */
  function NameChar(t: string, i: nat): (c: char)
    requires i < |t|
    ensures c != '_'
  {
    if t[i] == '_' then ' '
    else if i == 0 || t[i - 1] == '_' || t[i - 1] == ' ' then Upper(t[i])
    else t[i]
  }

  /** `formatName` turns every `_` into a space, upper-cases the first
      character of each word and leaves every other character; the result
      holds no `_`. */
  lemma FormatNameShape(id: string)
    ensures var t := StripPrefix(id, NamePrefixes);
      && |FormatName(id)| == |t|
      && (forall i :: 0 <= i < |t| ==> FormatName(id)[i] == NameChar(t, i))
      && '_' !in FormatName(id)
  {
    var t := StripPrefix(id, NamePrefixes);
    var u := ReplaceAll(t, "_", " ");
    assert u == ReplaceAll(t, ['_'], [' ']);
    ReplaceAllChar(t, '_', ' ');
    CapitalizeWordsShape(u);
    var r := FormatName(id);
    assert r == CapitalizeWords(u);
    forall i | 0 <= i < |t|
      ensures r[i] == NameChar(t, i)
    {
      assert u[i] == if t[i] == '_' then ' ' else t[i];
      if i > 0 {
        assert u[i - 1] == if t[i - 1] == '_' then ' ' else t[i - 1];
      }
    }
    forall i | 0 <= i < |t|
      ensures r[i] != '_'
    {
      assert r[i] == NameChar(t, i);
    }
  }

  // -----------------------------------------------------------------------
  // The editor's state

  class MetaData {
    var unlocked: map<string, bool>
    var discovered: map<string, bool>
    var alerted: map<string, bool>

    /** All three maps start empty. */
    constructor ()
      ensures Snapshot() == Flags(map[], map[], map[])
    {
      unlocked := map[];
      discovered := map[];
      alerted := map[];
    }

    function Snapshot(): Flags
      reads this
    {
      Flags(unlocked, discovered, alerted)
    }

    /** `getItemState(id)`. */
    function GetItemState(id: string): (s: ItemState)
      reads this
      ensures s == Unlocked <==> IsTrue(unlocked, id)
      ensures s == Discovered <==> IsTrue(discovered, id) && !IsTrue(unlocked, id)
      ensures s == Locked <==> !IsTrue(unlocked, id) && !IsTrue(discovered, id)
    {
      State(Snapshot(), id)
    }

    /** `toggleItem(id)`, on the maps only. */
    method ToggleItem(id: string)
      modifies this
      ensures Snapshot() == Toggled(old(Snapshot()), id)
    {
      var current := GetItemState(id);
      if current == Locked {
        discovered := discovered[id := true];
        unlocked := unlocked[id := false];
      } else if current == Discovered {
        discovered := discovered[id := true];
        unlocked := unlocked[id := true];
        alerted := alerted[id := true];
      } else {
        discovered := discovered[id := false];
        unlocked := unlocked[id := false];
        alerted := alerted[id := false];
      }
    }

    /** The loop both `unlockAll` and `lockAll` run over the keys of
      `unlocked`. */
    method SetEvery(b: bool)
      modifies this
      ensures Snapshot() == AllSet(old(Snapshot()), b)
    {
      ghost var f0 := Snapshot();
      var todo := unlocked.Keys;
      assert f0.unlocked.Keys - todo == {};
      SetKeysNone(f0, b);
      while todo != {}
        invariant todo <= f0.unlocked.Keys
        invariant Snapshot() == SetKeys(f0, f0.unlocked.Keys - todo, b)
        decreases |todo|
      {
        var key :| key in todo;
        SetKeysStep(f0, todo, key, b, Snapshot());
        unlocked, discovered, alerted := unlocked[key := b], discovered[key := b], alerted[key := b];
        todo := todo - {key};
      }
      assert f0.unlocked.Keys - todo == f0.unlocked.Keys;
    }

    /** `unlockAll()`, on the maps only. */
    method UnlockAll()
      modifies this
      ensures Snapshot() == AllSet(old(Snapshot()), true)
    {
      SetEvery(true);
    }

    /** `lockAll()`, on the maps only. */
    method LockAll()
      modifies this
      ensures Snapshot() == AllSet(old(Snapshot()), false)
    {
      SetEvery(false);
    }

    /** `getItemsForCategory(name)`: the ids of the category, ascending and
      without duplicates. */
    method GetItemsForCategory(name: CategoryName) returns (items: seq<string>)
      ensures StrictlySorted(items)
      ensures forall k :: k in items <==> InCategory(Snapshot(), name, k)
    {
      match CategoryOf(name)
      case Multiple(subs) =>
        items := CollectMultiple(subs);
      case Single(prefix, filter, isSeal) =>
        items := CollectSingle(name, prefix, filter, isSeal);
    }

    /** The loop for a multi category: every subcategory, then every key
      of `unlocked`. */
    method CollectMultiple(subs: seq<SubCategory>) returns (items: seq<string>)
      ensures StrictlySorted(items)
      ensures forall k :: k in items <==>
        k in unlocked && exists j :: 0 <= j < |subs| && SubMatches(subs[j], k)
    {
      items := [];
      for i := 0 to |subs|
        invariant StrictlySorted(items)
        invariant forall k :: k in items <==>
          k in unlocked && exists j :: 0 <= j < i && SubMatches(subs[j], k)
      {
        var sub := subs[i];
        var todo := unlocked.Keys;
        while todo != {}
          invariant todo <= unlocked.Keys
          invariant StrictlySorted(items)
          invariant forall k :: k in items <==>
            k in unlocked && ((exists j :: 0 <= j < i && SubMatches(subs[j], k)) || (k !in todo && SubMatches(sub, k)))
          decreases |todo|
        {
          var key :| key in todo;
          if sub.isSeal && key == "soul" {
            items := Insert(items, key);
          } else if StartsWith(key, sub.prefix) && !StartsWith(key, "p_") {
            items := Insert(items, key);
          }
          todo := todo - {key};
        }
      }
    }

    /** The loop for a single category over the keys of all three maps. */
    method CollectSingle(name: CategoryName, prefix: string, filter: Option<seq<string>>, isSeal: bool)
      returns (items: seq<string>)
      ensures StrictlySorted(items)
      ensures forall k :: k in items <==>
        (k in unlocked || k in discovered || k in alerted) && SingleMatches(name, prefix, filter, isSeal, k)
    {
      items := [];
      var allKeys := unlocked.Keys + discovered.Keys + alerted.Keys;
      var todo := allKeys;
      while todo != {}
        invariant todo <= allKeys
        invariant StrictlySorted(items)
        invariant forall k :: k in items <==>
          k in allKeys && k !in todo && SingleMatches(name, prefix, filter, isSeal, k)
        decreases |todo|
      {
        var key :| key in todo;
        todo := todo - {key};
        if filter.Some? {
          var itemName := RemoveFirst(key, prefix);
          if itemName in filter.value {
            items := Insert(items, key);
          }
        } else if isSeal && key == "soul" {
          items := Insert(items, key);
        } else if StartsWith(key, prefix) && !StartsWith(key, "p_") {
          var itemName := RemoveFirst(key, prefix);
          if name == Tarots || name == Planets || name == Spectrals {
            continue;
          }
          if prefix == "c_" {
            if itemName !in PlanetNames && itemName !in SpectralNames {
              items := Insert(items, key);
            }
          } else {
            items := Insert(items, key);
          }
        }
      }
    }

    /** The counts `updateStats` shows for a category. */
    method UpdateStats(name: CategoryName) returns (items: seq<string>, stats: Stats)
      ensures StrictlySorted(items)
      ensures forall k :: k in items <==> InCategory(Snapshot(), name, k)
      ensures stats == StatsOf(Snapshot(), items)
      ensures stats.unlocked + stats.discovered <= stats.total
    {
      items := GetItemsForCategory(name);
      stats := StatsOf(Snapshot(), items);
    }
  }
}
