/**
 The vocabulary shared by every part of the random tree generator: labels,
 dialogue-act items, the child entries the counts are keyed by, and the
 typed failures that the generator's lookups and arithmetic can raise.
 */
module Base {

  /** Syntactic category label of a tree node. */
  type Formeme = string

  /** Tectogrammatical lemma of a tree node. */
  type Lemma = string

  /** One dialogue-act item: a dialogue-act type with a slot and a value. */
  datatype Dai = Dai(daType: string, slot: string, value: string)

  /** A dialogue act: its items, in the order they were read. */
  type Da = seq<Dai>

  /**
   One way a child can hang below a parent: the child's formeme and lemma,
   and whether it stands to the right of its parent in surface order.
   */
  datatype ChildEntry = ChildEntry(formeme: Formeme, tLemma: Lemma, right: bool)

  /**
   The failures of the core. Each stands for the exception the generator
   raises at that point.
   */
  datatype Error =
    | NotTrained                    // a table is still None: TypeError
    | UnknownDai(dai: Dai)          // form_counts[dai] on a missing item: KeyError
    | ZeroDivision                  // a non-empty count map that sums to 0
    | EmptyCdf                      // cdf[-1] on an empty CDF: IndexError
    | NoBoundAbove                  // 'Unable to generate from CDF!'
    | UnknownMaxChildren(f: Formeme) // max_children[formeme]: KeyError
    | UnknownCdf(f: Formeme)        // cdfs[formeme]: KeyError
    | ListHasNoKeys                 // .keys() called on a list: AttributeError
    | CorruptModel                  // a missing or mismatched stored record

  datatype Option<+T> = None | Some(value: T)

  datatype Result<+T> = Ok(value: T) | Err(error: Error)

  function Min(a: nat, b: nat): (r: nat) {
    if a <= b then a else b
  }
}
