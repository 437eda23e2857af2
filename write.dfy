/** lib/write/write.h: a sink that writes every item's text to a stream, each followed by
    a delimiter character; the character `'\0'` stands for no delimiter. The text of an
    item (`stream << item`) is the parameter `toText`. */
module Write {
  import opened Common

  /** What one delimiter character writes: itself, or nothing for `'\0'`. */
  function Separator(delimiter: char): (s: string)
    ensures delimiter == '\0' <==> s == []
    ensures s != [] ==> s == [delimiter]
  {
    if delimiter != '\0' then [delimiter] else []
  }

  /** The text written for `items`: item text then separator, item after item. */
  function WrittenText<T>(items: seq<T>, toText: T -> string, delimiter: char): string
  {
    if items == [] then [] else toText(items[0]) + Separator(delimiter) + WrittenText(items[1..], toText, delimiter)
  }

  /** Total length of the item texts. */
  function TextLength<T>(items: seq<T>, toText: T -> string): nat
  {
    if items == [] then 0 else |toText(items[0])| + TextLength(items[1..], toText)
  }

  /** Writing two ranges one after the other writes the texts one after the other. */
  lemma {:induction false} WrittenAppend<T>(a: seq<T>, b: seq<T>, toText: T -> string, delimiter: char)
    ensures WrittenText(a + b, toText, delimiter) == WrittenText(a, toText, delimiter) + WrittenText(b, toText, delimiter)
  {
    if a == [] {
      assert a + b == b;
    } else {
      assert (a + b)[0] == a[0];
      assert (a + b)[1..] == a[1..] + b;
      WrittenAppend(a[1..], b, toText, delimiter);
    }
  }

  /** Writing one more item appends its text and then the separator. */
  lemma WrittenSnoc<T>(items: seq<T>, i: nat, toText: T -> string, delimiter: char)
    requires i < |items|
    ensures WrittenText(items[..i + 1], toText, delimiter) == WrittenText(items[..i], toText, delimiter) + toText(items[i]) + Separator(delimiter)
  {
    assert items[..i + 1] == items[..i] + [items[i]];
    WrittenAppend(items[..i], [items[i]], toText, delimiter);
    assert WrittenText([items[i]], toText, delimiter) == toText(items[i]) + Separator(delimiter) + WrittenText([items[i]][1..], toText, delimiter);
  }

  /** Written length: the item texts, plus one character per item unless the delimiter is `'\0'`. */
  lemma {:induction false} WrittenLength<T>(items: seq<T>, toText: T -> string, delimiter: char)
    ensures |WrittenText(items, toText, delimiter)| == TextLength(items, toText) + (if delimiter != '\0' then |items| else 0)
  {
    if items != [] {
      WrittenLength(items[1..], toText, delimiter);
    }
  }

  /** Every item is followed by the delimiter, the last one included: the text ends with it. */
  lemma WrittenEndsWithDelimiter<T>(items: seq<T>, toText: T -> string, delimiter: char)
    requires items != [] && delimiter != '\0'
    ensures WrittenText(items, toText, delimiter)[|WrittenText(items, toText, delimiter)| - 1] == delimiter
  {
    var init, x := items[..|items| - 1], items[|items| - 1];
    assert items == init + [x];
    WrittenAppend(init, [x], toText, delimiter);
    assert WrittenText([x], toText, delimiter) == toText(x) + [delimiter] + WrittenText([x][1..], toText, delimiter);
  }

  /** `Write(stream, delimiter)`: the stream and the delimiter, `'\0'` when not given. */
  datatype WriteOperation = WriteOperation(stream: OutputStream, delimiter: char)

  function MakeWrite(stream: OutputStream, delimiter: char := '\0'): (op: WriteOperation)
    ensures op.stream == stream && op.delimiter == delimiter
    ensures Separator(op.delimiter) == [] <==> delimiter == '\0'
  {
    WriteOperation(stream, delimiter)
  }

  /** `WriteProxy`: the range it was given, the stream reference and the delimiter. The
      whole range is written by the constructor. */
  class WriteProxy<T> {
    const range: seq<T>
    const stream: OutputStream
    const delimiter: char

    constructor (range: seq<T>, stream: OutputStream, delimiter: char, toText: T -> string)
      modifies stream
      ensures this.range == range && this.stream == stream && this.delimiter == delimiter
      ensures stream.text == old(stream.text) + WrittenText(range, toText, delimiter)
    {
      this.range := range;
      this.stream := stream;
      this.delimiter := delimiter;
      new;
      var i := 0;
      while i < |range|
        invariant i <= |range|
        invariant stream.text == old(stream.text) + WrittenText(range[..i], toText, delimiter)
      {
        WrittenSnoc(range, i, toText, delimiter);
        stream.Put(toText(range[i]));
        if delimiter != '\0' {
          stream.Put([delimiter]);
        }
        i := i + 1;
      }
      assert range[..i] == range;
    }
  }

  /** `range | Write(stream, delimiter)`: only appends to the stream; what it held before
      is kept as its prefix. */
  method Apply<T>(range: seq<T>, op: WriteOperation, toText: T -> string) returns (proxy: WriteProxy<T>)
    modifies op.stream
    ensures fresh(proxy) && proxy.stream == op.stream
    ensures op.stream.text == old(op.stream.text) + WrittenText(range, toText, op.delimiter)
  {
    proxy := new WriteProxy(range, op.stream, op.delimiter, toText);
  }

  /** Strings are written as themselves: `{"Hello", "World", "Test"}` with `' '` gives
      `"Hello World Test "`. */
  lemma WriteStrings()
    ensures WrittenText(["Hello", "World", "Test"], (s: string) => s, ' ') == "Hello World Test "
  {
    var id := (s: string) => s;
    assert WrittenText(["Test"], id, ' ') == "Test ";
    assert ["Hello", "World", "Test"][1..] == ["World", "Test"];
    assert ["World", "Test"][1..] == ["Test"];
  }

  /** Empty input writes nothing. */
  lemma WriteEmpty<T>(toText: T -> string, delimiter: char)
    ensures WrittenText([], toText, delimiter) == []
  {
  }
}
