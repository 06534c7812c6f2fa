/** Input streams read a character at a time, with one step back. */
module Streams {

  class InputStream {
    const text: string
    var pos: nat
    var good: bool

    constructor (text: string)
      ensures Valid() && Rest() == text && good
    {
      this.text := text;
      pos, good := 0, true;
    }

    ghost predicate Valid()
      reads this
    {
      pos <= |text| && (good || pos == |text|)
    }

    ghost function Rest(): string
      requires Valid()
      reads this
    {
      text[pos..]
    }

    /** Reading at the end fails and leaves the stream no longer good. */
    method Get() returns (c: char)
      requires Valid() && good
      modifies this
      ensures Valid() && good == (old(Rest()) != "")
      ensures good ==> [c] + Rest() == old(Rest()) && pos == old(pos) + 1
      ensures !good ==> Rest() == ""
    {
      if pos == |text| {
        good := false;
        c := '\0';
      } else {
        c := text[pos];
        pos := pos + 1;
      }
    }

    method Unget()
      requires Valid() && good && pos > 0
      modifies this
      ensures Valid() && good && pos == old(pos) - 1 && Rest() == [text[pos]] + old(Rest())
    {
      pos := pos - 1;
    }
  }
}
