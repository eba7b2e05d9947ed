/**
 The grammar that the recursive reader of 3rdparty/rapidjson/reader.h recognises, as functions from the
 text still to be read to the value tree and the text after it.
 */
module JsonGrammar {
  import opened Json
  import opened Streams
  import opened JsonText

  /** `null`, `true` and `false` after their first letter, and strings and numbers. */
  function ScalarAt(f: Flags, s: string): (r: Parsed<Json>)
    ensures r.Parsed? ==> IsScalar(r.value) && |r.rest| < |s|
  {
    match Peek(s)
    case 'n' => if "null" <= s then Parsed(Null, s[4..]) else Failed
    case 't' => if "true" <= s then Parsed(Bool(true), s[4..]) else Failed
    case 'f' => if "false" <= s then Parsed(Bool(false), s[5..]) else Failed
    case '\"' =>
      var t := StringAt(s[1..], "");
      if t.Failed? then Failed else Parsed(Str(t.value), t.rest)
    case _ =>
      var n := NumberAt(f, s);
      if n.Failed? then Failed else Parsed(Num(n.value), n.rest)
  }

  /** `ParseValue` */
  function ValueAt(f: Flags, s: string): (r: Parsed<Json>)
    ensures r.Parsed? ==> |r.rest| < |s|
    decreases |s|, 3
  {
    if Peek(s) == '{' then
      var ms := ObjectAt(f, s[1..]);
      if ms.Failed? then Failed else Parsed(Obj(ms.value), ms.rest)
    else if Peek(s) == '[' then
      var es := ArrayAt(f, s[1..]);
      if es.Failed? then Failed else Parsed(Arr(es.value), es.rest)
    else ScalarAt(f, s)
  }

  /** `ParseArray` after its opening bracket */
  function ArrayAt(f: Flags, s: string): (r: Parsed<seq<Json>>)
    ensures r.Parsed? ==> |r.rest| < |s|
    decreases |s|, 6
  {
    var first := Skip(f, s);
    if first.None? then Failed
    else if Peek(first.value) == ']' then Parsed([], first.value[1..])
    else ElementsAt(f, first.value, [])
  }

  /** The loop of `ParseArray`, having parsed the elements `es`. */
  function ElementsAt(f: Flags, s: string, es: seq<Json>): (r: Parsed<seq<Json>>)
    ensures r.Parsed? ==> |r.rest| < |s|
    decreases |s|, 5
  {
    var e := ElementAt(f, s);
    if e.Failed? then Failed
    else if Peek(e.rest) == ']' then Parsed(es + [e.value], e.rest[1..])
    else if Peek(e.rest) == ',' then
      var next := Skip(f, e.rest[1..]);
      if next.None? then Failed
      else if f.trailingCommas && Peek(next.value) == ']' then Parsed(es + [e.value], next.value[1..])
      else ElementsAt(f, next.value, es + [e.value])
    else Failed
  }

  /** An element and the white space after it. */
  function ElementAt(f: Flags, s: string): (r: Parsed<Json>)
    ensures r.Parsed? ==> |r.rest| < |s|
    decreases |s|, 4
  {
    var v := ValueAt(f, s);
    if v.Failed? then Failed
    else
      var after := Skip(f, v.rest);
      if after.None? then Failed else Parsed(v.value, after.value)
  }

  /** `ParseObject` after its opening bracket */
  function ObjectAt(f: Flags, s: string): (r: Parsed<seq<Member>>)
    ensures r.Parsed? ==> |r.rest| < |s|
    decreases |s|, 6
  {
    var first := Skip(f, s);
    if first.None? then Failed
    else if Peek(first.value) == '}' then Parsed([], first.value[1..])
    else MembersAt(f, first.value, [])
  }

  /** The loop of `ParseObject`, having parsed the members `ms`. */
  function MembersAt(f: Flags, s: string, ms: seq<Member>): (r: Parsed<seq<Member>>)
    ensures r.Parsed? ==> |r.rest| < |s|
    decreases |s|, 5
  {
    var m := MemberAt(f, s);
    if m.Failed? then Failed
    else if Peek(m.rest) == '}' then Parsed(ms + [m.value], m.rest[1..])
    else if Peek(m.rest) == ',' then
      var next := Skip(f, m.rest[1..]);
      if next.None? then Failed
      else if f.trailingCommas && Peek(next.value) == '}' then Parsed(ms + [m.value], next.value[1..])
      else MembersAt(f, next.value, ms + [m.value])
    else Failed
  }

  /** A name, white space, a colon and white space. */
  function MemberNameAt(f: Flags, s: string): (r: Parsed<string>)
    ensures r.Parsed? ==> |r.rest| < |s|
  {
    if Peek(s) != '\"' then Failed
    else
      var name := StringAt(s[1..], "");
      if name.Failed? then Failed
      else
        var colon := Skip(f, name.rest);
        if colon.None? || Peek(colon.value) != ':' then Failed
        else
          var value := Skip(f, colon.value[1..]);
          if value.None? then Failed else Parsed(name.value, value.value)
  }

  /** A member and the white space after it. */
  function MemberAt(f: Flags, s: string): (r: Parsed<Member>)
    ensures r.Parsed? ==> |r.rest| < |s|
    decreases |s|, 4
  {
    var name := MemberNameAt(f, s);
    if name.Failed? then Failed
    else
      var v := ElementAt(f, name.rest);
      if v.Failed? then Failed else Parsed(Member(name.value, v.value), v.rest)
  }

  /** `GenericReader::Parse` */
  function DocumentAt(f: Flags, s: string): Parsed<Json> {
    var start := Skip(f, s);
    if start.None? || Peek(start.value) == '\0' then Failed
    else
      var v := ValueAt(f, start.value);
      if v.Failed? || f.stopWhenDone then v
      else
        var end := Skip(f, v.rest);
        if end.None? || Peek(end.value) != '\0' then Failed else Parsed(v.value, end.value)
  }
}
