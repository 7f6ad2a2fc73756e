/** The profile view: the check that a decoded file is a profile, the
    writer that stores an edited number along a dotted path, and the
    display form of item ids. */
module Profile {
  import opened Wrappers
  import opened Text
  import opened Decimal
  import opened JsValue
  import Meta

  // -----------------------------------------------------------------------
  // Validation

  const RequiredProfileKeys: seq<string> :=
    ["name", "career_stats", "high_scores", "progress", "challenge_progress"]

  const MetaFileError: string :=
    "This is a meta.jkr file, not a profile.jkr file. Please select your profile.jkr file instead."

  const StructureHeader: string := "Invalid profile.jkr structure:\n"

  const MissingKeyHeader: string := "Missing required key: "

  const CareerStatsError: string := "career_stats must be an object"

  const HighScoresError: string := "high_scores must be an object"

  const ChallengesError: string := "progress.challenges is missing"

  const DeckStakesError: string := "progress.deck_stakes is missing"

  /** What `validateProfileData` returns: `{valid: true}` or
      `{valid: false, error}`. */
  datatype Validation = Valid | Invalid(error: string)

  /** `data[k]` is truthy (an absent property reads as `undefined`). */
  predicate TruthyAt(data: seq<Field>, k: string)
  {
    Get(data, k).Some? && Truthy(Get(data, k).value)
  }

  /** `v[k]` is truthy, for any value `v`: only objects have the named
      properties asked for here. */
  predicate MemberTruthy(v: JVal, k: string)
  {
    Member(v, k).Some? && Truthy(Member(v, k).value)
  }

  /** A decoded meta.jkr file: one of its three maps is present. */
  predicate LooksLikeMeta(data: seq<Field>)
  {
    TruthyAt(data, "unlocked") || TruthyAt(data, "discovered") || TruthyAt(data, "alerted")
  }

  /** `data[k]` is truthy and `typeof` does not call it an object. */
  predicate NotAnObject(data: seq<Field>, k: string)
  {
    TruthyAt(data, k) && !TypeofObject(Get(data, k).value)
  }

  /** The members of `keys` that are not own properties of `data`, in the
      order of `keys`. */
  function MissingKeys(data: seq<Field>, keys: seq<string>): (r: seq<string>)
    ensures |r| <= |keys|
  {
    if keys == [] then []
    else
      var last := keys[|keys| - 1];
      MissingKeys(data, keys[..|keys| - 1]) + (if last in Keys(data) then [] else [last])
  }

  /** A key is listed exactly when it is required and absent. */
  lemma {:induction false} MissingKeysMembers(data: seq<Field>, keys: seq<string>)
    ensures forall k :: k in MissingKeys(data, keys) <==> k in keys && k !in Keys(data)
  {
    if keys != [] {
      var init := keys[..|keys| - 1];
      MissingKeysMembers(data, init);
      assert keys == init + [keys[|keys| - 1]];
    }
  }

  function MissingKeyErrors(ks: seq<string>): (r: seq<string>)
    ensures |r| == |ks|
    ensures forall i :: 0 <= i < |ks| ==> r[i] == MissingKeyHeader + ks[i]
  {
    seq(|ks|, i requires 0 <= i < |ks| => MissingKeyHeader + ks[i])
  }

  function TypeErrors(data: seq<Field>): seq<string>
  {
    (if NotAnObject(data, "career_stats") then [CareerStatsError] else [])
    + (if NotAnObject(data, "high_scores") then [HighScoresError] else [])
  }

  function ProgressErrors(data: seq<Field>): seq<string>
  {
    if !TruthyAt(data, "progress") then []
    else
      var p := Get(data, "progress").value;
      (if MemberTruthy(p, "challenges") then [] else [ChallengesError])
      + (if MemberTruthy(p, "deck_stakes") then [] else [DeckStakesError])
  }

  /** The errors a profile that does not look like a meta file collects,
      in the order they are found. */
  function StructureErrors(data: seq<Field>): seq<string>
  {
    MissingKeyErrors(MissingKeys(data, RequiredProfileKeys)) + TypeErrors(data) + ProgressErrors(data)
  }

  /** The result for the errors collected: valid when there are none,
      otherwise one message listing them line by line. */
  function Verdict(errors: seq<string>): Validation
  {
    if errors == [] then Valid else Invalid(StructureHeader + Join(errors, "\n"))
  }

  /** `validateProfileData(data)`. */
  method ValidateProfileData(data: seq<Field>) returns (r: Validation)
    ensures LooksLikeMeta(data) ==> r == Invalid(MetaFileError)
    ensures !LooksLikeMeta(data) ==> r == Verdict(StructureErrors(data))
  {
    if TruthyAt(data, "unlocked") || TruthyAt(data, "discovered") || TruthyAt(data, "alerted") {
      return Invalid(MetaFileError);
    }
    var errors := MissingKeyCheck(data, RequiredProfileKeys);
    ghost var missing := errors;
    var career := if NotAnObject(data, "career_stats") then [CareerStatsError] else [];
    errors := errors + career;
    var high := if NotAnObject(data, "high_scores") then [HighScoresError] else [];
    errors := errors + high;
    AppendTwo(missing, career, high);
    ghost var typed := errors;
    if TruthyAt(data, "progress") {
      var p := Get(data, "progress").value;
      var challenges := if MemberTruthy(p, "challenges") then [] else [ChallengesError];
      errors := errors + challenges;
      var stakes := if MemberTruthy(p, "deck_stakes") then [] else [DeckStakesError];
      errors := errors + stakes;
      AppendTwo(typed, challenges, stakes);
    } else {
      assert errors == typed + [];
    }
    AppendTwo(missing, TypeErrors(data), ProgressErrors(data));
    if |errors| > 0 {
      r := Invalid(StructureHeader + Join(errors, "\n"));
    } else {
      r := Valid;
    }
  }

  lemma AppendTwo(a: seq<string>, b: seq<string>, c: seq<string>)
    ensures a + b + c == a + (b + c)
  {
  }

  /** The `forEach` over the required keys: one message per key that is
      not an own property. */
  method MissingKeyCheck(data: seq<Field>, keys: seq<string>) returns (errors: seq<string>)
    ensures errors == MissingKeyErrors(MissingKeys(data, keys))
  {
    errors := [];
    for i := 0 to |keys|
      invariant errors == MissingKeyErrors(MissingKeys(data, keys[..i]))
    {
      var key := keys[i];
      assert keys[..i + 1][..i] == keys[..i];
      if key !in Keys(data) {
        errors := errors + [MissingKeyHeader + key];
      }
    }
    assert keys[..|keys|] == keys;
  }

  /** A profile that is not a meta file is valid exactly when every
      required key is an own property, `career_stats` and `high_scores`
      are objects when truthy, and a truthy `progress` has truthy
      `challenges` and `deck_stakes`. */
  lemma ValidExactly(data: seq<Field>)
    ensures StructureErrors(data) == [] <==>
      && (forall k :: k in RequiredProfileKeys ==> k in Keys(data))
      && !NotAnObject(data, "career_stats")
      && !NotAnObject(data, "high_scores")
      && (TruthyAt(data, "progress") ==>
            var p := Get(data, "progress").value;
            MemberTruthy(p, "challenges") && MemberTruthy(p, "deck_stakes"))
  {
    var missing := MissingKeys(data, RequiredProfileKeys);
    MissingKeysMembers(data, RequiredProfileKeys);
    if missing != [] {
      assert missing[0] in missing;
    }
  }

  lemma RequiredKeysDistinct()
    ensures forall i, j :: 0 <= i < j < |RequiredProfileKeys| ==> RequiredProfileKeys[i] != RequiredProfileKeys[j]
  {
    var ks := RequiredProfileKeys;
    assert ks[0][0] == 'n' && ks[1][0] == 'c' && ks[2][0] == 'h' && ks[3][0] == 'p' && ks[4][0] == 'c';
    assert ks[1][1] == 'a' && ks[4][1] == 'h';
  }

  /** A missing key is only ever reported by its own message. */
  lemma {:induction false} MissingKeysDistinct(data: seq<Field>, keys: seq<string>)
    requires forall i, j :: 0 <= i < j < |keys| ==> keys[i] != keys[j]
    ensures forall i, j :: 0 <= i < j < |MissingKeys(data, keys)| ==>
      MissingKeys(data, keys)[i] != MissingKeys(data, keys)[j]
  {
    if keys != [] {
      var init := keys[..|keys| - 1];
      MissingKeysDistinct(data, init);
      MissingKeysMembers(data, init);
      assert keys[|keys| - 1] !in init;
      assert keys[|keys| - 1] !in MissingKeys(data, init);
    }
  }

  /** The type and progress messages never read like a missing key. */
  lemma OtherErrorsDiffer(data: seq<Field>, k: string)
    ensures MissingKeyHeader + k !in TypeErrors(data) + ProgressErrors(data)
  {
    var x := MissingKeyHeader + k;
    assert x[0] == 'M';
    forall m | m in TypeErrors(data)
      ensures m != x
    {
      assert m == CareerStatsError || m == HighScoresError;
      assert m[0] != 'M';
    }
    forall m | m in ProgressErrors(data)
      ensures m != x
    {
      assert m == ChallengesError || m == DeckStakesError;
      assert m[0] != 'M';
    }
  }

  /** The missing-key errors open the list. */
  lemma StructureErrorsHead(data: seq<Field>, r: nat)
    requires r < |MissingKeys(data, RequiredProfileKeys)|
    ensures r < |StructureErrors(data)|
    ensures StructureErrors(data)[r] == MissingKeyHeader + MissingKeys(data, RequiredProfileKeys)[r]
  {
    var missing := MissingKeys(data, RequiredProfileKeys);
    assert StructureErrors(data) == MissingKeyErrors(missing) + (TypeErrors(data) + ProgressErrors(data));
  }

  lemma CountMissingKeyError(ks: seq<string>, k: string)
    requires forall i, j :: 0 <= i < j < |ks| ==> ks[i] != ks[j]
    ensures multiset(MissingKeyErrors(ks))[MissingKeyHeader + k] == if k in ks then 1 else 0
    decreases |ks|
  {
    if ks != [] {
      var last := ks[|ks| - 1];
      var init := ks[..|ks| - 1];
      assert MissingKeyErrors(ks) == MissingKeyErrors(init) + [MissingKeyHeader + last];
      CountMissingKeyError(init, k);
      assert MissingKeyHeader + last == MissingKeyHeader + k ==> last == k by {
        if MissingKeyHeader + last == MissingKeyHeader + k {
          assert last == (MissingKeyHeader + last)[|MissingKeyHeader|..];
        }
      }
      assert k in ks <==> k in init || k == last;
    }
  }

  /** Each required key that is not an own property is reported exactly
      once, and a present key never. */
  lemma MissingKeyReportedOnce(data: seq<Field>, k: string)
    requires k in RequiredProfileKeys
    ensures multiset(StructureErrors(data))[MissingKeyHeader + k] == if k in Keys(data) then 0 else 1
  {
    var missing := MissingKeys(data, RequiredProfileKeys);
    var x := MissingKeyHeader + k;
    assert multiset(MissingKeyErrors(missing))[x] == if k in Keys(data) then 0 else 1 by {
      RequiredKeysDistinct();
      MissingKeysDistinct(data, RequiredProfileKeys);
      MissingKeysMembers(data, RequiredProfileKeys);
      CountMissingKeyError(missing, k);
    }
    var rest := TypeErrors(data) + ProgressErrors(data);
    assert multiset(rest)[x] == 0 by {
      OtherErrorsDiffer(data, k);
    }
    AppendTwo(MissingKeyErrors(missing), TypeErrors(data), ProgressErrors(data));
    assert multiset(StructureErrors(data)) == multiset(MissingKeyErrors(missing)) + multiset(rest);
  }

  /** Where the error for the `i`-th key of `keys` sits: after the errors
      for the missing keys before it. */
  function ErrorRank(data: seq<Field>, keys: seq<string>, i: nat): nat
    requires i <= |keys|
  {
    |MissingKeys(data, keys[..i])|
  }

  lemma {:induction false} MissingKeysPrefix(data: seq<Field>, keys: seq<string>, i: nat)
    requires i <= |keys|
    ensures MissingKeys(data, keys[..i]) <= MissingKeys(data, keys)
    decreases |keys| - i
  {
    if i < |keys| {
      MissingKeysPrefix(data, keys, i + 1);
      assert keys[..i + 1][..i] == keys[..i];
    } else {
      assert keys[..i] == keys;
    }
  }

  /** The missing-key errors come first, in the order of the required
      keys: the error for a missing key `RequiredProfileKeys[i]` is at
      `ErrorRank(i)`, and later missing keys have later ranks. */
  lemma MissingKeyErrorsInOrder(data: seq<Field>, i: nat, j: nat)
    requires i < j < |RequiredProfileKeys|
    requires RequiredProfileKeys[i] !in Keys(data) && RequiredProfileKeys[j] !in Keys(data)
    ensures ErrorRank(data, RequiredProfileKeys, i) < ErrorRank(data, RequiredProfileKeys, j)
      < |StructureErrors(data)|
    ensures StructureErrors(data)[ErrorRank(data, RequiredProfileKeys, i)]
      == MissingKeyHeader + RequiredProfileKeys[i]
    ensures StructureErrors(data)[ErrorRank(data, RequiredProfileKeys, j)]
      == MissingKeyHeader + RequiredProfileKeys[j]
  {
    var keys := RequiredProfileKeys;
    var ri := ErrorRank(data, keys, i);
    var rj := ErrorRank(data, keys, j);
    RankOrder(data, keys, i, j);
    RankError(data, keys, i);
    RankError(data, keys, j);
    StructureErrorsPrefix(data);
  }

  lemma RankError(data: seq<Field>, keys: seq<string>, i: nat)
    requires i < |keys| && keys[i] !in Keys(data)
    ensures ErrorRank(data, keys, i) < |MissingKeyErrors(MissingKeys(data, keys))|
    ensures MissingKeyErrors(MissingKeys(data, keys))[ErrorRank(data, keys, i)] == MissingKeyHeader + keys[i]
  {
    RankPlaces(data, keys, i);
  }

  lemma StructureErrorsPrefix(data: seq<Field>)
    ensures MissingKeyErrors(MissingKeys(data, RequiredProfileKeys)) <= StructureErrors(data)
  {
  }

  lemma RankOrder(data: seq<Field>, keys: seq<string>, i: nat, j: nat)
    requires i < j <= |keys| && keys[i] !in Keys(data)
    ensures ErrorRank(data, keys, i) < ErrorRank(data, keys, j)
  {
    var a := MissingKeys(data, keys[..i + 1]);
    var b := MissingKeys(data, keys[..j]);
    assert |a| == ErrorRank(data, keys, i) + 1 by {
      RankNext(data, keys, i);
    }
    assert a <= b by {
      MissingKeysPrefix(data, keys[..j], i + 1);
      assert keys[..j][..i + 1] == keys[..i + 1];
    }
  }

  lemma RankNext(data: seq<Field>, keys: seq<string>, i: nat)
    requires i < |keys| && keys[i] !in Keys(data)
    ensures |MissingKeys(data, keys[..i + 1])| == ErrorRank(data, keys, i) + 1
  {
    assert keys[..i + 1][..i] == keys[..i];
  }

  lemma RankPlaces(data: seq<Field>, keys: seq<string>, i: nat)
    requires i < |keys| && keys[i] !in Keys(data)
    ensures var missing := MissingKeys(data, keys);
      ErrorRank(data, keys, i) < |missing| && missing[ErrorRank(data, keys, i)] == keys[i]
  {
    assert keys[..i + 1][..i] == keys[..i];
    assert MissingKeys(data, keys[..i + 1]) == MissingKeys(data, keys[..i]) + [keys[i]];
    MissingKeysPrefix(data, keys, i + 1);
  }

  // -----------------------------------------------------------------------
  // Writing along a dotted path

  /** `v` nested under the keys, one new object per key but the last. */
  function Chain(keys: seq<string>, v: JVal): seq<Field>
    requires |keys| >= 1
    decreases |keys|
  {
    if |keys| == 1 then [Field(keys[0], v)]
    else [Field(keys[0], JObj(Chain(keys[1..], v)))]
  }

  /** One more than the largest array index, 2^32 - 1. */
  const MaxArrayLength: nat := 0xFFFF_FFFF

  /** The element an array property name stands for: the name is the
      decimal text JavaScript prints for a number below 2^32 - 1. */
  function ArrayIndex(k: string): (r: Option<nat>)
    ensures r.Some? ==> r.value < MaxArrayLength && NatText(r.value) == k
  {
    if Canonical(k) && DigitsValue(k) < MaxArrayLength then
      NatTextOfCanonical(k);
      Some(DigitsValue(k))
    else None
  }

  lemma ArrayIndexOfText(n: nat)
    requires n < MaxArrayLength
    ensures ArrayIndex(NatText(n)) == Some(n)
  {
  }

  /** Objects and arrays: what `current` can hold and be written through. */
  predicate Container(c: JVal)
  {
    c.JObj? || c.JArr?
  }

  /** `c[k]` on an own property of an object or an element of an array,
      with `None` for `undefined`. */
  function Read(c: JVal, k: string): Option<JVal>
  {
    match c
    case JObj(fs) => Get(fs, k)
    case JArr(items) =>
      (match ArrayIndex(k)
       case Some(n) => if n < |items| then Some(items[n]) else None
       case None => None)
    case _ => None
  }

  /** Where `c[k] = x` gives a value the model holds: any property of an
      object, and an array index up to the array's length. */
  predicate Writable(c: JVal, k: string)
  {
    c.JObj? || (c.JArr? && ArrayIndex(k).Some? && ArrayIndex(k).value <= |c.items|)
  }

  /** `c[k] = x`: an object takes the property as `Put` does; an array
      replaces the element at that index, or grows by one at its length. */
  function Write(c: JVal, k: string, x: JVal): (r: Option<JVal>)
    ensures r.Some? <==> Writable(c, k)
  {
    match c
    case JObj(fs) => Some(JObj(Put(fs, k, x)))
    case JArr(items) =>
      (match ArrayIndex(k)
       case Some(n) =>
         if n < |items| then Some(JArr(items[n := x]))
         else if n == |items| then Some(JArr(items + [x]))
         else None
       case None => None)
    case _ => None
  }

  /** After a write the key reads the written value and every other key
      reads as before, for objects and arrays alike. */
  lemma WriteRead(c: JVal, k: string, x: JVal, k': string)
    requires Writable(c, k)
    ensures Read(Write(c, k, x).value, k) == Some(x)
    ensures k' != k ==> Read(Write(c, k, x).value, k') == Read(c, k')
  {
    match c
    case JObj(fs) =>
      PutGet(fs, k, x, k');
    case JArr(items) =>
      var n := ArrayIndex(k).value;
      if k' != k && ArrayIndex(k').Some? {
        assert ArrayIndex(k').value != n;
      }
  }

  /** What `current` becomes at an intermediate step: the object or array
      found there, or a fresh `{}` where the entry is absent or falsy;
      `None` where it is a truthy string, number or `true`. */
  function StepInto(c: JVal, k: string): Option<JVal>
  {
    match Read(c, k)
    case Some(x) => if Container(x) then Some(x) else if Truthy(x) then None else Some(JObj([]))
    case None => Some(JObj([]))
  }

  /** The loop of `setNestedValue` over the keys of a path, on values: the
      new container, or `None` where the write is one the model cannot
      hold. */
  function SetPath(c: JVal, keys: seq<string>, v: JVal): Option<JVal>
    requires |keys| >= 1
    decreases |keys|
  {
    if |keys| == 1 then Write(c, keys[0], v)
    else
      match StepInto(c, keys[0])
      case None => None
      case Some(child) =>
        match SetPath(child, keys[1..], v)
        case None => None
        case Some(child') => Write(c, keys[0], child')
  }

  /** What `c[k0][k1]…[kn]` reads, with `None` for `undefined` and for a
      step through something that is neither an object nor an array. */
  function Follow(c: JVal, keys: seq<string>): Option<JVal>
    requires |keys| >= 1
    decreases |keys|
  {
    match Read(c, keys[0])
    case Some(x) => if |keys| == 1 then Some(x) else Follow(x, keys[1..])
    case None => None
  }

  /** Every container on the path takes its key (an object any key, an
      array an index up to its length), and every truthy intermediate
      value is an object or an array. */
  predicate PathOpen(c: JVal, keys: seq<string>)
    requires |keys| >= 1
    decreases |keys|
  {
    && Writable(c, keys[0])
    && (|keys| == 1 ||
        match Read(c, keys[0])
        case Some(x) => if Container(x) then PathOpen(x, keys[1..]) else !Truthy(x)
        case None => true)
  }

  /** `setNestedValue(obj, path, value)`. */
  function SetNestedValue(obj: seq<Field>, path: string, v: JVal): (r: Option<seq<Field>>)
    ensures r.Some? <==> PathOpen(JObj(obj), Split(path, '.'))
    ensures r.Some? ==> Follow(JObj(r.value), Split(path, '.')) == Some(v)
  {
    var keys := Split(path, '.');
    SetPathOpen(JObj(obj), keys, v);
    SetPathFollow(JObj(obj), keys, v);
    SetPathObject(obj, keys, v);
    match SetPath(JObj(obj), keys, v)
    case Some(JObj(fs)) => Some(fs)
    case _ => None
  }

  /** The write succeeds exactly when the path is open. */
  lemma {:induction false} SetPathOpen(c: JVal, keys: seq<string>, v: JVal)
    requires |keys| >= 1
    ensures SetPath(c, keys, v).Some? <==> PathOpen(c, keys)
    decreases |keys|
  {
    if |keys| > 1 {
      match Read(c, keys[0])
      case Some(x) =>
        if Container(x) {
          SetPathOpen(x, keys[1..], v);
        } else if !Truthy(x) {
          SetPathFresh(keys[1..], v);
        }
      case None =>
        SetPathFresh(keys[1..], v);
    }
  }

  /** One intermediate step of the write, unfolded. */
  lemma SetPathStep(c: JVal, keys: seq<string>, v: JVal, child: JVal)
    requires |keys| >= 2 && StepInto(c, keys[0]) == Some(child)
    ensures SetPath(c, keys, v) ==
      if SetPath(child, keys[1..], v).Some? then Write(c, keys[0], SetPath(child, keys[1..], v).value)
      else None
  {
  }

  /** A write into an object gives an object. */
  lemma SetPathObject(fs: seq<Field>, keys: seq<string>, v: JVal)
    requires |keys| >= 1
    ensures SetPath(JObj(fs), keys, v).Some? ==> SetPath(JObj(fs), keys, v).value.JObj?
  {
    if |keys| > 1 && StepInto(JObj(fs), keys[0]).Some? {
      SetPathStep(JObj(fs), keys, v, StepInto(JObj(fs), keys[0]).value);
    }
  }

  lemma PutEmpty(k: string, x: JVal)
    ensures Put([], k, x) == [Field(k, x)]
  {
    assert Keys([]) == [];
    assert [] + [Field(k, x)] == [Field(k, x)];
  }

  /** Writing into a fresh `{}` builds the chain of new objects. */
  lemma {:induction false} SetPathFresh(keys: seq<string>, v: JVal)
    requires |keys| >= 1
    ensures SetPath(JObj([]), keys, v) == Some(JObj(Chain(keys, v)))
    decreases |keys|
  {
    if |keys| == 1 {
      PutEmpty(keys[0], v);
    } else {
      assert Keys([]) == [];
      assert StepInto(JObj([]), keys[0]) == Some(JObj([]));
      SetPathFresh(keys[1..], v);
      SetPathStep(JObj([]), keys, v, JObj([]));
      PutEmpty(keys[0], JObj(Chain(keys[1..], v)));
    }
  }

  /** After the write, following the path reads the written value. */
  lemma {:induction false} SetPathFollow(c: JVal, keys: seq<string>, v: JVal)
    requires |keys| >= 1
    ensures SetPath(c, keys, v).Some? ==> Follow(SetPath(c, keys, v).value, keys) == Some(v)
    decreases |keys|
  {
    if |keys| == 1 {
      if Writable(c, keys[0]) {
        WriteRead(c, keys[0], v, keys[0]);
      }
    } else if StepInto(c, keys[0]).Some? {
      var child := StepInto(c, keys[0]).value;
      SetPathFollow(child, keys[1..], v);
      if SetPath(child, keys[1..], v).Some? && Writable(c, keys[0]) {
        WriteRead(c, keys[0], SetPath(child, keys[1..], v).value, keys[0]);
      }
    }
  }

  /** An absent or falsy first step is replaced by the chain of new
      objects. */
  lemma SetPathReplacesFalsy(fs: seq<Field>, keys: seq<string>, v: JVal)
    requires |keys| >= 2 && !TruthyAt(fs, keys[0])
    ensures SetPath(JObj(fs), keys, v) == Some(JObj(Put(fs, keys[0], JObj(Chain(keys[1..], v)))))
  {
    assert StepInto(JObj(fs), keys[0]) == Some(JObj([]));
    SetPathFresh(keys[1..], v);
  }

  /** Through an array on the path, an index below its length writes into
      that element and the index equal to its length appends one. */
  lemma SetPathArrayElement(fs: seq<Field>, k: string, items: seq<JVal>, n: nat, v: JVal)
    requires Get(fs, k) == Some(JArr(items)) && n <= |items| && n < MaxArrayLength
    ensures SetPath(JObj(fs), [k, NatText(n)], v) ==
      Some(JObj(Put(fs, k, JArr(if n < |items| then items[n := v] else items + [v]))))
  {
    ArrayIndexOfText(n);
    var keys := [k, NatText(n)];
    assert keys[1..] == [NatText(n)];
    SetPathStep(JObj(fs), keys, v, JArr(items));
  }

  /** A path `q` that leaves `keys` at some step. */
  predicate Diverges(q: seq<string>, keys: seq<string>)
    decreases |q|
  {
    |q| >= 1 && |keys| >= 1 && (q[0] != keys[0] || Diverges(q[1..], keys[1..]))
  }

  /** Every entry off the path reads as before. */
  lemma {:induction false} SetPathOffPath(c: JVal, keys: seq<string>, v: JVal, q: seq<string>)
    requires |keys| >= 1 && SetPath(c, keys, v).Some? && Diverges(q, keys)
    ensures Follow(SetPath(c, keys, v).value, q) == Follow(c, q)
    decreases |keys|
  {
    if q[0] != keys[0] {
      SetPathOtherKey(c, keys, v, q[0]);
    } else {
      var child := StepInto(c, keys[0]).value;
      var child' := SetPath(child, keys[1..], v).value;
      SetPathStep(c, keys, v, child);
      WriteRead(c, keys[0], child', keys[0]);
      SetPathOffPath(child, keys[1..], v, q[1..]);
      match Read(c, keys[0])
      case Some(x) =>
        if !Container(x) {
          assert Follow(x, q[1..]) == None;
          assert Keys([]) == [];
          assert Follow(JObj([]), q[1..]) == None;
        }
      case None =>
        assert Keys([]) == [];
        assert Follow(JObj([]), q[1..]) == None;
    }
  }

  /** An entry of the container other than the path's first key reads as
      before. */
  lemma SetPathOtherKey(c: JVal, keys: seq<string>, v: JVal, k: string)
    requires |keys| >= 1 && SetPath(c, keys, v).Some? && k != keys[0]
    ensures Read(SetPath(c, keys, v).value, k) == Read(c, k)
  {
    if |keys| == 1 {
      WriteRead(c, keys[0], v, k);
    } else {
      var child := StepInto(c, keys[0]).value;
      SetPathStep(c, keys, v, child);
      WriteRead(c, keys[0], SetPath(child, keys[1..], v).value, k);
    }
  }

  /** The top-level properties keep their order; the first key of the
      path is added last when it was absent. */
  lemma SetPathKeys(fs: seq<Field>, keys: seq<string>, v: JVal)
    requires |keys| >= 1 && SetPath(JObj(fs), keys, v).Some?
    ensures var out := SetPath(JObj(fs), keys, v).value;
      out.JObj? && Keys(out.fields) == if keys[0] in Keys(fs) then Keys(fs) else Keys(fs) + [keys[0]]
  {
    var x := if |keys| == 1 then v else SetPath(StepInto(JObj(fs), keys[0]).value, keys[1..], v).value;
    if |keys| > 1 {
      SetPathStep(JObj(fs), keys, v, StepInto(JObj(fs), keys[0]).value);
    }
    var out := Put(fs, keys[0], x);
    assert SetPath(JObj(fs), keys, v) == Some(JObj(out));
    if keys[0] !in Keys(fs) {
      assert out == fs + [Field(keys[0], x)];
      assert Keys(out) == Keys(fs) + [keys[0]];
    }
  }

  // -----------------------------------------------------------------------
  // Display names

  /** `\w` in a regular expression without the `u` flag. */
  predicate IsWordChar(c: char)
  {
    'a' <= c <= 'z' || 'A' <= c <= 'Z' || '0' <= c <= '9' || c == '_'
  }

  /** `s.replace(/\b\w/g, l => l.toUpperCase())`: a word character that
      starts the text or follows a non-word character is upper-cased. */
  function CapitalizeWordStarts(s: string): (r: string)
    ensures |r| == |s|
  {
    seq(|s|, i requires 0 <= i < |s| =>
      if IsWordChar(s[i]) && (i == 0 || !IsWordChar(s[i - 1])) then Upper(s[i]) else s[i])
  }

  /** The number of digits that stand right before index `k` of `s`. */
  function DigitsBefore(s: string, k: nat): (n: nat)
    requires k <= |s|
    ensures n <= k
    ensures forall i :: k - n <= i < k ==> IsDigit(s[i])
    ensures n < k ==> !IsDigit(s[k - n - 1])
    decreases k
  {
    if k > 0 && IsDigit(s[k - 1]) then DigitsBefore(s, k - 1) + 1 else 0
  }

  /** `s` ends with `_` at index `j` followed by one or more digits. */
  predicate NumericSuffixAt(s: string, j: int)
  {
    0 <= j < |s| - 1 && s[j] == '_' && forall i :: j < i < |s| ==> IsDigit(s[i])
  }

  /** `s.replace(/_\d+$/, '')`. */
  function StripNumericSuffix(s: string): (r: string)
    ensures (forall j :: !NumericSuffixAt(s, j)) ==> r == s
    ensures forall j :: NumericSuffixAt(s, j) ==> r == s[..j]
  {
    var n := DigitsBefore(s, |s|);
    var r := if 0 < n < |s| && s[|s| - n - 1] == '_' then s[..|s| - n - 1] else s;
    assert 0 < n < |s| && s[|s| - n - 1] == '_' ==> NumericSuffixAt(s, |s| - n - 1);
    forall j | NumericSuffixAt(s, j)
      ensures j == |s| - n - 1
    {
      assert !IsDigit(s[j]);
    }
    r
  }

  /** `formatProfileName(id)`. */
  function FormatProfileName(id: string): string
  {
    CapitalizeWordStarts(ReplaceAll(StripNumericSuffix(Meta.StripPrefix(id, Meta.NamePrefixes)), "_", " "))
  }

  /** What `formatProfileName` puts at index `i` of the id `t` whose
      prefix and numeric suffix are already removed. */
  function ProfileNameChar(t: string, i: nat): (c: char)
    requires i < |t|
    ensures c != '_'
  {
    if t[i] == '_' then ' '
    else if IsWordChar(t[i]) && (i == 0 || t[i - 1] == '_' || !IsWordChar(t[i - 1])) then Upper(t[i])
    else t[i]
  }

  /** Every `_` becomes a space, every word start is upper-cased and every
      other character is kept; the result holds no `_`. */
  lemma FormatProfileNameShape(id: string)
    ensures var t := StripNumericSuffix(Meta.StripPrefix(id, Meta.NamePrefixes));
      && |FormatProfileName(id)| == |t|
      && (forall i :: 0 <= i < |t| ==> FormatProfileName(id)[i] == ProfileNameChar(t, i))
      && '_' !in FormatProfileName(id)
  {
    var t := StripNumericSuffix(Meta.StripPrefix(id, Meta.NamePrefixes));
    CapitalizeReplaced(t);
  }

  lemma CapitalizeReplaced(t: string)
    ensures var r := CapitalizeWordStarts(ReplaceAll(t, "_", " "));
      && |r| == |t|
      && (forall i :: 0 <= i < |t| ==> r[i] == ProfileNameChar(t, i))
      && '_' !in r
  {
    var u := ReplaceAll(t, "_", " ");
    assert u == ReplaceAll(t, ['_'], [' ']);
    ReplaceAllChar(t, '_', ' ');
    var r := CapitalizeWordStarts(u);
    forall i | 0 <= i < |t|
      ensures r[i] == ProfileNameChar(t, i)
    {
      CapitalizedAt(t, u, i);
    }
    forall i | 0 <= i < |t|
      ensures r[i] != '_'
    {
      assert r[i] == ProfileNameChar(t, i);
    }
  }

  lemma CapitalizedAt(t: string, u: string, i: nat)
    requires |u| == |t| && i < |t|
    requires forall k :: 0 <= k < |t| ==> u[k] == if t[k] == '_' then ' ' else t[k]
    ensures CapitalizeWordStarts(u)[i] == ProfileNameChar(t, i)
  {
    assert u[i] == if t[i] == '_' then ' ' else t[i];
    if i > 0 {
      assert u[i - 1] == if t[i - 1] == '_' then ' ' else t[i - 1];
    }
  }

  lemma UpperKeepsWordChar(c: char)
    ensures IsWordChar(Upper(c)) == IsWordChar(c)
    ensures Upper(Upper(c)) == Upper(c)
    ensures c != '_' ==> Upper(c) != '_'
  {
  }

  lemma CapitalizeWordStartsIdempotent(s: string)
    ensures CapitalizeWordStarts(CapitalizeWordStarts(s)) == CapitalizeWordStarts(s)
  {
    var r := CapitalizeWordStarts(s);
    var r2 := CapitalizeWordStarts(r);
    forall i | 0 <= i < |s|
      ensures r2[i] == r[i]
    {
      UpperKeepsWordChar(s[i]);
      if i > 0 {
        UpperKeepsWordChar(s[i - 1]);
        assert IsWordChar(r[i - 1]) == IsWordChar(s[i - 1]);
      }
      assert IsWordChar(r[i]) == IsWordChar(s[i]);
    }
  }

  lemma StartsWithLast(s: string, p: string)
    ensures StartsWith(s, p) && p != [] ==> p[|p| - 1] in s
  {
    if StartsWith(s, p) && p != [] {
      assert s[..|p|][|p| - 1] == s[|p| - 1];
    }
  }

  /** Without `_` no listed prefix and no numeric suffix can match, and
      there is nothing to replace. */
  lemma NoUnderscoreUntouched(s: string)
    requires '_' !in s
    ensures Meta.StripPrefix(s, Meta.NamePrefixes) == s
    ensures StripNumericSuffix(s) == s
    ensures ReplaceAll(s, "_", " ") == s
  {
    forall i | 0 <= i < |Meta.NamePrefixes|
      ensures !StartsWith(s, Meta.NamePrefixes[i])
    {
      var p := Meta.NamePrefixes[i];
      assert p[|p| - 1] == '_';
      StartsWithLast(s, p);
    }
    assert forall j :: !NumericSuffixAt(s, j);
    assert ReplaceAll(s, "_", " ") == ReplaceAll(s, ['_'], [' ']);
    ReplaceAllChar(s, '_', ' ');
  }

  /** A formatted name formats to itself. */
  lemma FormatProfileNameIdempotent(id: string)
    ensures FormatProfileName(FormatProfileName(id)) == FormatProfileName(id)
  {
    var r := FormatProfileName(id);
    FormatProfileNameShape(id);
    NoUnderscoreUntouched(r);
    var t := StripNumericSuffix(Meta.StripPrefix(id, Meta.NamePrefixes));
    CapitalizeWordStartsIdempotent(ReplaceAll(t, "_", " "));
  }

  /** The challenge list shows `c_five_card_1` as `Five Card`. */
  lemma FiveCardName()
    ensures FormatProfileName("c_five_card_1") == "Five Card"
  {
    FiveCardPrefix();
    FiveCardSuffix();
    FiveCardSpaces();
    FiveCardCapitalized();
  }

  lemma FiveCardPrefix()
    ensures Meta.StripPrefix("c_five_card_1", Meta.NamePrefixes) == "five_card_1"
  {
    var id := "c_five_card_1";
    assert !StartsWith(id, Meta.NamePrefixes[0]) by {
      assert id[..2][0] == 'c';
    }
    assert StartsWith(id, Meta.NamePrefixes[1]) by {
      assert id[..2] == "c_";
    }
    assert id[2..] == "five_card_1";
  }

  lemma FiveCardSuffix()
    ensures StripNumericSuffix("five_card_1") == "five_card"
  {
    var a := "five_card_1";
    assert NumericSuffixAt(a, 9);
    assert a[..9] == "five_card";
  }

  lemma FiveCardSpaces()
    ensures ReplaceAll("five_card", "_", " ") == "five card"
  {
    var b := "five_card";
    assert ReplaceAll(b, "_", " ") == ReplaceAll(b, ['_'], [' ']);
    ReplaceAllChar(b, '_', ' ');
  }

  lemma FiveCardCapitalized()
    ensures CapitalizeWordStarts("five card") == "Five Card"
  {
    var c := "five card";
    var r := CapitalizeWordStarts(c);
    var e := "Five Card";
    assert r[0] == e[0] by { assert IsWordChar(c[0]); }
    assert r[1] == e[1] by { assert IsWordChar(c[0]); }
    assert r[2] == e[2] by { assert IsWordChar(c[1]); }
    assert r[3] == e[3] by { assert IsWordChar(c[2]); }
    assert r[4] == e[4] by { assert !IsWordChar(c[4]); }
    assert r[5] == e[5] by { assert !IsWordChar(c[4]) && IsWordChar(c[5]); }
    assert r[6] == e[6] by { assert IsWordChar(c[5]); }
    assert r[7] == e[7] by { assert IsWordChar(c[6]); }
    assert r[8] == e[8] by { assert IsWordChar(c[7]); }
  }
}
