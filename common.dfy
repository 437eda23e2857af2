/** Shared vocabulary of the pipeline model: optional values and the text sink
    that the terminal consumers append to. */
module Common {

  /** `std::optional`: an absent value or a present one. */
  datatype Option<T> = None | Some(value: T)

  /** An output stream (`std::ostream`) reduced to the text written into it so far.
      The sinks hold it by reference and only ever append. */
  class OutputStream {
    var text: string

    constructor (initial: string)
      ensures text == initial
    {
      text := initial;
    }

    /** `stream << s` */
    method Put(s: string)
      modifies this
      ensures text == old(text) + s
    {
      text := text + s;
    }
  }

  /** Taking the first of the items still to come onto the collected prefix keeps their
      concatenation: the step every range-for over an iterator makes. */
  lemma Advance<T>(done: seq<T>, before: seq<T>, x: T, rest: seq<T>)
    requires before != [] && x == before[0] && rest == before[1..]
    ensures (done + [x]) + rest == done + before
  {
    assert before == [x] + rest;
  }

  /** Dropping the first of the items still to come from a buffered list `items[pos..]`
      followed by `tail`. */
  lemma DropFirst<T>(items: seq<T>, pos: nat, tail: seq<T>)
    requires pos < |items|
    ensures (items[pos..] + tail)[1..] == items[pos + 1..] + tail
  {
  }
}
