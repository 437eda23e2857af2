/** lib/out/out.h: a sink that writes the text of every item, with nothing in between.
    The text of an item (`stream << item`) is the parameter `toText`. */
module Out {
  import opened Common
  import Write

  /** The concatenation of the item texts, in iteration order. */
  function OutText<T>(items: seq<T>, toText: T -> string): string
  {
    if items == [] then [] else toText(items[0]) + OutText(items[1..], toText)
  }

  lemma {:induction false} OutTextAppend<T>(a: seq<T>, b: seq<T>, toText: T -> string)
    ensures OutText(a + b, toText) == OutText(a, toText) + OutText(b, toText)
  {
    if a == [] {
      assert a + b == b;
    } else {
      assert (a + b)[0] == a[0];
      assert (a + b)[1..] == a[1..] + b;
      OutTextAppend(a[1..], b, toText);
    }
  }

  /** `Out` writes exactly what `Write` with the `'\0'` delimiter writes. */
  lemma {:induction false} OutIsWriteWithoutDelimiter<T>(items: seq<T>, toText: T -> string)
    ensures OutText(items, toText) == Write.WrittenText(items, toText, '\0')
  {
    if items != [] {
      OutIsWriteWithoutDelimiter(items[1..], toText);
    }
  }

  /** `OutProxy`: the range and the stream reference. The whole range is drained by the
      constructor. */
  class OutProxy<T> {
    const range: seq<T>
    const stream: OutputStream

    constructor (range: seq<T>, stream: OutputStream, toText: T -> string)
      modifies stream
      ensures this.range == range && this.stream == stream
      ensures stream.text == old(stream.text) + OutText(range, toText)
    {
      this.range := range;
      this.stream := stream;
      new;
      var i := 0;
      while i < |range|
        invariant i <= |range|
        invariant stream.text == old(stream.text) + OutText(range[..i], toText)
      {
        OutTextAppend(range[..i], [range[i]], toText);
        assert range[..i + 1] == range[..i] + [range[i]];
        assert OutText([range[i]], toText) == toText(range[i]) + OutText([range[i]][1..], toText);
        OutputItem(toText(range[i]));
        i := i + 1;
      }
      assert range[..i] == range;
    }

    /** `outputItem` */
    method OutputItem(text: string)
      modifies stream
      ensures stream.text == old(stream.text) + text
    {
      stream.Put(text);
    }
  }

  /** `Out(stream)` */
  datatype OutOperation = OutOperation(stream: OutputStream)

  /** `range | Out(stream)`: the stream gains the concatenated texts; nothing else changes. */
  method Apply<T>(range: seq<T>, op: OutOperation, toText: T -> string) returns (proxy: OutProxy<T>)
    modifies op.stream
    ensures fresh(proxy) && proxy.stream == op.stream
    ensures op.stream.text == old(op.stream.text) + OutText(range, toText)
  {
    proxy := new OutProxy(range, op.stream, toText);
  }
}
