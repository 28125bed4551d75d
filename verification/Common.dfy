/** Sizes and outcomes that several components share. */
module Common {
  const UINT_MAX: nat := 0xFFFF_FFFF
  const SIZE_MAX: nat := 0xFFFF_FFFF_FFFF_FFFF

  /** `unsigned long` */
  type ulong = n: nat | n <= 0xFFFF_FFFF_FFFF_FFFF

  /** A pointer that may be null, or the result of a call that may fail. */
  datatype Option<+T> = None | Some(value: T)

  /** `enum answer_state` */
  datatype AnswerState = Wrong | More | Right

  function Min(a: nat, b: nat): nat { if a > b then b else a }

  lemma Regroup<T>(front: seq<T>, x: seq<T>, back: seq<T>)
    ensures front + x + back == front + (x + back)
  {
  }
}
