/** The cursor over a text that the reader advances (JsonServer/ReadStream.h). */
module ReadStream {
  import opened Octets
  import ReaderSpec

  class StringReadStream {
    const json: Bytes
    var it: nat

    ghost predicate Valid()
      reads this
    {
      it <= |json|
    }

    constructor (json: Bytes)
      ensures Valid() && this.json == json && it == 0
    {
      this.json := json;
      it := 0;
    }

    predicate HasNext()
      requires Valid()
      reads this
    {
      it != |json|
    }

    function Front(): Byte
      requires Valid()
      reads this
    {
      if HasNext() then json[it] else 0
    }

    /** Moving past the end is undefined in the source, so a caller must know there is a byte. */
    method Pop()
      requires Valid() && HasNext()
      modifies this
      ensures Valid() && it == old(it) + 1
    {
      it := it + 1;
    }

    method Next() returns (ch: Byte)
      requires Valid()
      modifies this
      ensures Valid() && ch == ReaderSpec.Front(json, old(it)) && it == ReaderSpec.Advance(json, old(it))
    {
      if HasNext() {
        ch := json[it];
        it := it + 1;
      } else {
        ch := 0;
      }
    }

    /** The precondition is the assert of the source. */
    method Expect(ch: Byte)
      requires Valid() && HasNext() && Front() == ch
      modifies this
      ensures Valid() && it == old(it) + 1
    {
      Pop();
    }
  }
}
