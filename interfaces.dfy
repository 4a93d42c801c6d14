/**
 * The data model of src/shared/interfaces.ts: the category enumeration, the
 * amendment module record and the holder that groups modules by category.
 */
module Interfaces {
  import opened Wrappers

  /**
   * `AmendmentCategories`. The first five members are the ones declared in
   * interfaces.ts, in that order. Paths, CSV and ForceExtension are used by
   * amendment-modules.ts and string-pipe.ts but not declared there; they are
   * appended here in the order they are first used.
   */
  datatype Category =
    | Pandoc
    | WordEquations
    | Paper
    | Boilerplate
    | Strings
    | Paths
    | CSV
    | ForceExtension

  /** The members in declaration order, as `Object.keys` lists them. */
  const AllCategories: seq<Category> :=
    [Pandoc, WordEquations, Paper, Boilerplate, Strings, Paths, CSV, ForceExtension]

  /** The member's key name. */
  function KeyName(c: Category): string {
    match c
    case Pandoc => "Pandoc"
    case WordEquations => "WordEquations"
    case Paper => "Paper"
    case Boilerplate => "Boilerplate"
    case Strings => "Strings"
    case Paths => "Paths"
    case CSV => "CSV"
    case ForceExtension => "ForceExtension"
  }

  /** The member's string value, the value a module's `category` field holds at run time. */
  function Value(c: Category): string {
    match c
    case WordEquations => "Word Equations"
    case _ => KeyName(c)
  }

  /** `AmendmentModule`: display name, `repr` (its ID), documentation, the operation and the category. */
  datatype AmendmentModule = AmendmentModule(
    name: string,
    repr: string,
    description: string,
    inputType: Option<string>,
    inputExample: Option<string>,
    warning: Option<string>,
    operation: string -> string,
    category: Category)

  /** `AmendmentCategoryHolder`: the modules shown under one category heading. */
  datatype CategoryHolder = CategoryHolder(category: string, modules: seq<AmendmentModule>)

  /** The enumeration is closed and every member is listed exactly once, in declaration order. */
  lemma AllCategoriesListsEachOnce(c: Category)
    ensures c in AllCategories
    ensures forall i, j :: 0 <= i < j < |AllCategories| ==> AllCategories[i] != AllCategories[j]
    ensures |AllCategories| == 8 && AllCategories[..5] == [Pandoc, WordEquations, Paper, Boilerplate, Strings]
  {
  }

  /** Each member's value is its key name, except WordEquations whose value is "Word Equations". */
  lemma ValueIsKeyExceptWordEquations(c: Category)
    ensures Value(c) == KeyName(c) <==> c != WordEquations
    ensures Value(WordEquations) == "Word Equations"
  {
  }

  /** Key names identify members: distinct members have distinct key names. */
  lemma KeyNamesDistinct(c: Category, d: Category)
    ensures KeyName(c) == KeyName(d) <==> c == d
  {
  }

  /** Distinct members have distinct values. */
  lemma ValuesDistinct(c: Category, d: Category)
    ensures Value(c) == Value(d) <==> c == d
  {
  }

  /** No member's key name is "Word Equations", the value of WordEquations. */
  lemma NoKeyIsWordEquationsValue(c: Category)
    ensures KeyName(c) != Value(WordEquations)
  {
  }
}
