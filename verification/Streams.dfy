/**
 The stream concepts of 3rdparty/rapidjson/stream.h over text held in memory. Characters are 8-bit code
 units; the text of an input stream is what is still to be read, as a pointer into a buffer is.
 */
module Streams {
  /** What `Peek` sees: the end of the text reads as the terminating zero. */
  function Peek(s: string): char {
    if s == "" then '\0' else s[0]
  }

  /** What `Take` leaves. */
  function Rest(s: string): string {
    if s == "" then "" else s[1..]
  }

  class InputStream {
    var src: string

    constructor (s: string)
      ensures src == s
    {
      src := s;
    }

    method Take() returns (c: char)
      modifies this
      ensures c == Peek(old(src)) && src == Rest(old(src))
    {
      c := Peek(src);
      src := Rest(src);
    }

    /** `Consume`: take the next character if it is the expected one. */
    method Consume(wanted: char) returns (ok: bool)
      requires wanted != '\0'
      modifies this
      ensures ok == (Peek(old(src)) == wanted)
      ensures src == if ok then old(src)[1..] else old(src)
    {
      ok := Peek(src) == wanted;
      if ok {
        src := Rest(src);
      }
    }
  }

  class OutputStream {
    var text: string

    constructor ()
      ensures text == ""
    {
      text := "";
    }

    method Put(c: char)
      modifies this
      ensures text == old(text) + [c]
    {
      text := text + [c];
    }
  }
}
