/** Optional values and decoder outcomes shared by the coders and the trie. */
module Wrappers {
  /** A Java reference that may be null. */
  datatype Option<T> = None | Some(value: T)

  /** The result of a decoder run: the decoded symbols, or the failure a
      corrupted stream provokes (the symbol scan runs off the table). */
  datatype Outcome<T> = Ok(value: T) | Failure(reason: string)

  /** A decoded symbol in front of the symbols decoded after it, or the
      failure that stopped them. */
  function Prepend<T>(c: T, res: Outcome<seq<T>>): Outcome<seq<T>>
  {
    match res
    case Ok(rest) => Ok([c] + rest)
    case Failure(e) => Failure(e)
  }

  lemma PrependHead<T>(msg: seq<T>)
    requires |msg| > 0
    ensures Prepend(msg[0], Ok(msg[1..])) == Ok(msg)
  {
    assert [msg[0]] + msg[1..] == msg;
  }

  /** Regrouping a concatenation of three sequences. */
  lemma ConcatAssoc<T>(a: seq<T>, b: seq<T>, c: seq<T>)
    ensures a + (b + c) == (a + b) + c
  {
  }
}
