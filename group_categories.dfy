/**
 * src/shared/group-categories.ts: the modules grouped under one holder per
 * category, for the selection list.
 */
module GroupCategories {
  import opened JsStrings
  import opened Interfaces

  /** Whether a module's category value is `v`. */
  function HasCategoryValue(v: string): AmendmentModule -> bool {
    (m: AmendmentModule) => Value(m.category) == v
  }

  /**
   * One holder per category of `cats`, in that order, named by the key; the
   * holder of `c` keeps, in order, the modules whose category value equals
   * `nameOf(c)`.
   */
  function GroupBy(cats: seq<Category>, ms: seq<AmendmentModule>, nameOf: Category -> string): seq<CategoryHolder> {
    seq(|cats|, i requires 0 <= i < |cats| => CategoryHolder(KeyName(cats[i]), Filter(ms, HasCategoryValue(nameOf(cats[i])))))
  }

  /**
   * `groupIntoCategories` as written: it maps over the enum's KEYS and keeps
   * the modules whose category VALUE equals the key.
   */
  function GroupIntoCategories(ms: seq<AmendmentModule>): seq<CategoryHolder> {
    GroupBy(AllCategories, ms, KeyName)
  }

  /** The evidently intended grouping: a module's category value is compared with the member's value. */
  function GroupIntoCategoriesByValue(ms: seq<AmendmentModule>): seq<CategoryHolder> {
    GroupBy(AllCategories, ms, Value)
  }

  /** The number of modules held by all holders together. */
  function TotalHeld(hs: seq<CategoryHolder>): nat
    decreases |hs|
  {
    if |hs| == 0 then 0 else TotalHeld(hs[..|hs| - 1]) + |hs[|hs| - 1].modules|
  }

  /** Whether a module is shown by the grouping as written. */
  function NotWordEquations(m: AmendmentModule): bool {
    m.category != WordEquations
  }

  /** The modules the holder of `c` is meant to hold: those of category `c`. */
  function OfCategory(c: Category): AmendmentModule -> bool {
    (m: AmendmentModule) => m.category == c
  }

  /** The modules the holder of `c` holds as written: those of category `c`, unless `c` is WordEquations. */
  function OfCategoryAsWritten(c: Category): AmendmentModule -> bool {
    (m: AmendmentModule) => m.category == c && c != WordEquations
  }

  // ---------------------------------------------------------------------
  // The grouping as written
  // ---------------------------------------------------------------------

  /** One holder per enum member, in declaration order, each named by the member's key; empty holders are kept. */
  lemma GroupOneHolderPerMember(ms: seq<AmendmentModule>)
    ensures |GroupIntoCategories(ms)| == |AllCategories|
    ensures forall i :: 0 <= i < |AllCategories| ==> GroupIntoCategories(ms)[i].category == KeyName(AllCategories[i])
    ensures GroupIntoCategories(ms)[1].category == "WordEquations"
  {
  }

  /** Grouping keeps relative order: the holders of `a + b` are those of `a` followed by those of `b`. */
  lemma GroupKeepsOrder(a: seq<AmendmentModule>, b: seq<AmendmentModule>, i: nat)
    requires i < |AllCategories|
    ensures GroupIntoCategories(a + b)[i].modules == GroupIntoCategories(a)[i].modules + GroupIntoCategories(b)[i].modules
  {
    FilterConcat(a, b, HasCategoryValue(KeyName(AllCategories[i])));
  }

  /** A single module is held by the holder of its own category, unless that category is WordEquations. */
  lemma GroupSingleModule(m: AmendmentModule, i: nat)
    requires i < |AllCategories|
    ensures GroupIntoCategories([m])[i].modules ==
            if m.category == AllCategories[i] && m.category != WordEquations then [m] else []
  {
    FilterSingleton(m, HasCategoryValue(KeyName(AllCategories[i])));
    KeyNamesDistinct(m.category, AllCategories[i]);
    NoKeyIsWordEquationsValue(AllCategories[i]);
  }

  /** Every module in a holder has that holder's category, and none has category WordEquations. */
  lemma GroupHoldersMatch(ms: seq<AmendmentModule>, i: nat, k: nat)
    requires i < |AllCategories| && k < |GroupIntoCategories(ms)[i].modules|
    ensures GroupIntoCategories(ms)[i].modules[k].category == AllCategories[i]
    ensures GroupIntoCategories(ms)[i].modules[k].category != WordEquations
  {
    var m := GroupIntoCategories(ms)[i].modules[k];
    assert GroupIntoCategories(ms)[i].modules == Filter(ms, HasCategoryValue(KeyName(AllCategories[i])));
    assert HasCategoryValue(KeyName(AllCategories[i]))(m);
    KeyNamesDistinct(m.category, AllCategories[i]);
    NoKeyIsWordEquationsValue(AllCategories[i]);
  }

  /**
   * As written, the holder of each member holds, in input order, exactly the
   * modules of that member's category, and nothing when the member is
   * WordEquations.
   */
  lemma GroupHoldsAsWritten(ms: seq<AmendmentModule>, i: nat)
    requires i < |AllCategories|
    ensures GroupIntoCategories(ms)[i].modules == Filter(ms, OfCategoryAsWritten(AllCategories[i]))
    ensures forall m :: m in GroupIntoCategories(ms)[i].modules <==>
              m in ms && m.category == AllCategories[i] && m.category != WordEquations
  {
    var c := AllCategories[i];
    forall k | 0 <= k < |ms|
      ensures HasCategoryValue(KeyName(c))(ms[k]) == OfCategoryAsWritten(c)(ms[k])
    {
      KeyNamesDistinct(ms[k].category, c);
      NoKeyIsWordEquationsValue(c);
      ValueIsKeyExceptWordEquations(ms[k].category);
    }
    FilterSameOn(ms, HasCategoryValue(KeyName(c)), OfCategoryAsWritten(c));
    forall m ensures m in Filter(ms, OfCategoryAsWritten(c)) <==> m in ms && OfCategoryAsWritten(c)(m) {
      FilterMembers(ms, OfCategoryAsWritten(c), m);
    }
  }

  /** The WordEquations holder is always empty. */
  lemma {:induction false} WordEquationsHolderEmpty(ms: seq<AmendmentModule>)
    ensures GroupIntoCategories(ms)[1].modules == []
    decreases |ms|
  {
    if |ms| == 0 {
      assert GroupIntoCategories(ms)[1].modules == Filter(ms, HasCategoryValue(KeyName(AllCategories[1])));
    } else {
      assert ms == [ms[0]] + ms[1..];
      GroupKeepsOrder([ms[0]], ms[1..], 1);
      GroupSingleModule(ms[0], 1);
      WordEquationsHolderEmpty(ms[1..]);
    }
  }

  // ---------------------------------------------------------------------
  // Counting what the holders hold
  // ---------------------------------------------------------------------

  /** The number of categories of `cats` under whose holder `m` is filed. */
  function Hits(cats: seq<Category>, nameOf: Category -> string, m: AmendmentModule): nat
    decreases |cats|
  {
    if |cats| == 0 then 0
    else Hits(cats[..|cats| - 1], nameOf, m) + (if Value(m.category) == nameOf(cats[|cats| - 1]) then 1 else 0)
  }

  /** Holders that hold nothing hold nothing in total. */
  lemma GroupNothing(cats: seq<Category>, nameOf: Category -> string)
    ensures forall i :: 0 <= i < |cats| ==> GroupBy(cats, [], nameOf)[i].modules == []
  {
    forall i | 0 <= i < |cats| ensures GroupBy(cats, [], nameOf)[i].modules == [] {
      assert GroupBy(cats, [], nameOf)[i].modules == Filter([], HasCategoryValue(nameOf(cats[i])));
    }
  }

  lemma {:induction false} TotalHeldNothing(hs: seq<CategoryHolder>)
    requires forall i :: 0 <= i < |hs| ==> hs[i].modules == []
    ensures TotalHeld(hs) == 0
    decreases |hs|
  {
    if |hs| > 0 {
      TotalHeldNothing(hs[..|hs| - 1]);
    }
  }

  lemma GroupByPrefix(cats: seq<Category>, ms: seq<AmendmentModule>, nameOf: Category -> string, k: nat)
    requires k <= |cats|
    ensures GroupBy(cats, ms, nameOf)[..k] == GroupBy(cats[..k], ms, nameOf)
  {
  }

  /** Adding a module at the end adds one to the total for every holder it is filed under. */
  lemma {:induction false} TotalHeldAppend(cats: seq<Category>, ms: seq<AmendmentModule>, m: AmendmentModule, nameOf: Category -> string)
    ensures TotalHeld(GroupBy(cats, ms + [m], nameOf)) == TotalHeld(GroupBy(cats, ms, nameOf)) + Hits(cats, nameOf, m)
    decreases |cats|
  {
    if |cats| > 0 {
      var n := |cats|;
      GroupByPrefix(cats, ms + [m], nameOf, n - 1);
      GroupByPrefix(cats, ms, nameOf, n - 1);
      TotalHeldAppend(cats[..n - 1], ms, m, nameOf);
      var p := HasCategoryValue(nameOf(cats[n - 1]));
      FilterConcat(ms, [m], p);
      FilterSingleton(m, p);
    }
  }

  /** When at most one category of `cats` takes `m`, `m` is counted once if some category takes it and otherwise not at all. */
  lemma {:induction false} HitsAtMostOne(cats: seq<Category>, nameOf: Category -> string, m: AmendmentModule, c: Category)
    requires forall i, j :: 0 <= i < j < |cats| ==> cats[i] != cats[j]
    requires forall d :: Value(m.category) == nameOf(d) ==> d == c
    ensures Hits(cats, nameOf, m) == if c in cats && Value(m.category) == nameOf(c) then 1 else 0
    decreases |cats|
  {
    if |cats| > 0 {
      var n := |cats|;
      HitsAtMostOne(cats[..n - 1], nameOf, m, c);
      assert cats == cats[..n - 1] + [cats[n - 1]];
      if cats[n - 1] == c {
        assert c !in cats[..n - 1];
      }
    }
  }

  /** As written, the sizes of the holders sum to the number of modules whose category is not WordEquations. */
  lemma {:induction false} GroupTotalAsWritten(ms: seq<AmendmentModule>)
    ensures TotalHeld(GroupIntoCategories(ms)) == |Filter(ms, NotWordEquations)|
    decreases |ms|
  {
    if |ms| == 0 {
      GroupNothing(AllCategories, KeyName);
      TotalHeldNothing(GroupIntoCategories(ms));
    } else {
      var n := |ms|;
      var m := ms[n - 1];
      assert ms == ms[..n - 1] + [m];
      GroupTotalAsWritten(ms[..n - 1]);
      TotalHeldAppend(AllCategories, ms[..n - 1], m, KeyName);
      AllCategoriesListsEachOnce(m.category);
      forall d | Value(m.category) == KeyName(d) ensures d == m.category {
        KeyNamesDistinct(m.category, d);
        NoKeyIsWordEquationsValue(d);
      }
      HitsAtMostOne(AllCategories, KeyName, m, m.category);
      ValueIsKeyExceptWordEquations(m.category);
      FilterConcat(ms[..n - 1], [m], NotWordEquations);
      FilterSingleton(m, NotWordEquations);
    }
  }

  /** A WordEquations module is in no holder: grouping [m] holds nothing although the input has one module. */
  lemma GroupDropsWordEquations(m: AmendmentModule)
    requires m.category == WordEquations
    ensures TotalHeld(GroupIntoCategories([m])) == 0
  {
    GroupTotalAsWritten([m]);
    FilterSingleton(m, NotWordEquations);
  }

  /** When no module has category WordEquations, every module is in exactly one holder and the sizes sum to the input length. */
  lemma GroupPartitionsWithoutWordEquations(ms: seq<AmendmentModule>)
    requires forall k :: 0 <= k < |ms| ==> ms[k].category != WordEquations
    ensures TotalHeld(GroupIntoCategories(ms)) == |ms|
  {
    GroupTotalAsWritten(ms);
    FilterKeepsAll(ms, NotWordEquations);
  }

  // ---------------------------------------------------------------------
  // The grouping by value
  // ---------------------------------------------------------------------

  /** By value, a single module is held by the holder of its own category, whatever it is. */
  lemma GroupByValueSingleModule(m: AmendmentModule, i: nat)
    requires i < |AllCategories|
    ensures GroupIntoCategoriesByValue([m])[i].modules == if m.category == AllCategories[i] then [m] else []
  {
    FilterSingleton(m, HasCategoryValue(Value(AllCategories[i])));
    ValuesDistinct(m.category, AllCategories[i]);
  }

  /**
   * By value, the holder of each member holds, in input order, exactly the
   * modules of that member's category; as the members are listed once each,
   * every module is in the holder of its own category and in no other.
   */
  lemma GroupByValueHolds(ms: seq<AmendmentModule>, i: nat)
    requires i < |AllCategories|
    ensures GroupIntoCategoriesByValue(ms)[i].modules == Filter(ms, OfCategory(AllCategories[i]))
    ensures forall m :: m in GroupIntoCategoriesByValue(ms)[i].modules <==> m in ms && m.category == AllCategories[i]
  {
    var c := AllCategories[i];
    forall k | 0 <= k < |ms|
      ensures HasCategoryValue(Value(c))(ms[k]) == OfCategory(c)(ms[k])
    {
      ValuesDistinct(ms[k].category, c);
    }
    FilterSameOn(ms, HasCategoryValue(Value(c)), OfCategory(c));
    forall m ensures m in Filter(ms, OfCategory(c)) <==> m in ms && OfCategory(c)(m) {
      FilterMembers(ms, OfCategory(c), m);
    }
  }

  /** The sizes of the by-value holders sum to the input length: no module is held twice. */
  lemma {:induction false} GroupByValuePartitions(ms: seq<AmendmentModule>)
    ensures TotalHeld(GroupIntoCategoriesByValue(ms)) == |ms|
    decreases |ms|
  {
    if |ms| == 0 {
      GroupNothing(AllCategories, Value);
      TotalHeldNothing(GroupIntoCategoriesByValue(ms));
    } else {
      var n := |ms|;
      var m := ms[n - 1];
      assert ms == ms[..n - 1] + [m];
      GroupByValuePartitions(ms[..n - 1]);
      TotalHeldAppend(AllCategories, ms[..n - 1], m, Value);
      AllCategoriesListsEachOnce(m.category);
      forall d | Value(m.category) == Value(d) ensures d == m.category {
        ValuesDistinct(m.category, d);
      }
      HitsAtMostOne(AllCategories, Value, m, m.category);
    }
  }
}
