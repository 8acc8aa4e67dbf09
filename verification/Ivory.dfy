/** Ivory words: a tag of two cdr-code bits and a six-bit type, and a 32-bit datum. */
module Ivory {
  import opened TaggedMemory

  datatype Word = Word(tag: Tag, datum: Datum)

  const TYPE_NIL := 20
  const TYPE_LIST := 21
  const TYPE_LOCATIVE := 25
  const TYPE_FIXNUM := 8
  const TYPE_EVEN_PC := 38
  const TYPE_ODD_PC := 39

  /** The cdr code of the first tag with the type of the second. */
  function MergeCdr(cdr: Tag, type_: Tag): Tag { cdr / 64 * 64 + type_ % 64 }

  /** A word with its cdr code cleared, as it is pushed on the stack. */
  function CdrNext(w: Word): Word { Word(w.tag % 64, w.datum) }

  /** Merging and clearing keep the type, and take or drop the cdr code. */
  lemma CdrsExactly(cdr: Tag, w: Word)
    ensures MergeCdr(cdr, w.tag) / 64 == cdr / 64 && MergeCdr(cdr, w.tag) % 64 == w.tag % 64
    ensures CdrNext(w).tag / 64 == 0 && CdrNext(w).tag % 64 == w.tag % 64 && CdrNext(w).datum == w.datum
  {
  }
}
