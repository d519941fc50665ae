/**
 * net/url's query-component escaping: url.QueryEscape and its inverse
 * url.QueryUnescape. Both work on the bytes of a Go string, which for a
 * Dafny string are its UTF-8 encoding.
 */
module UrlEscape {
  import opened Wrappers
  import opened Text

  predicate IsAlnumChar(c: char)
  {
    ('a' <= c <= 'z') || ('A' <= c <= 'Z') || ('0' <= c <= '9')
  }

  /** The characters url.QueryEscape leaves as they are: letters, digits and -_.~ */
  predicate IsUnreservedChar(c: char)
  {
    IsAlnumChar(c) || c == '-' || c == '_' || c == '.' || c == '~'
  }

  predicate IsUnreserved(b: byte)
  {
    b < 128 && IsUnreservedChar(b as char)
  }

  const HexDigits: string := "0123456789ABCDEF"

  /** One byte as it appears in an escaped query component. */
  function EscapeByte(b: byte): string
  {
    if IsUnreserved(b) then [b as char]
    else if b == ' ' as int then "+"
    else ['%', HexDigits[b / 16], HexDigits[b % 16]]
  }

  /** The characters an escaped query component is made of. */
  predicate IsQuerySafe(c: char)
  {
    IsUnreservedChar(c) || c == '+' || c == '%'
  }

  function EscapeBytes(bs: seq<byte>): (s: string)
    ensures forall i | 0 <= i < |s| :: IsQuerySafe(s[i])
  {
    if bs == [] then ""
    else
      var head, tail := EscapeByte(bs[0]), EscapeBytes(bs[1..]);
      assert forall i | 0 <= i < |head| :: IsQuerySafe(head[i]);
      head + tail
  }

  /**
   * url.QueryEscape(s): the text holds only query-safe characters, and
   * QueryUnescape reads back exactly the UTF-8 bytes of s.
   */
  function QueryEscape(s: string): (r: string)
    ensures forall i | 0 <= i < |r| :: IsQuerySafe(r[i])
    ensures QueryUnescape(r) == Some(Utf8String(s))
  {
    UnescapeEscape(Utf8String(s));
    EscapeBytes(Utf8String(s))
  }

  function Unhex(c: char): Option<nat>
  {
    if '0' <= c <= '9' then Some(c as int - '0' as int)
    else if 'a' <= c <= 'f' then Some(c as int - 'a' as int + 10)
    else if 'A' <= c <= 'F' then Some(c as int - 'A' as int + 10)
    else None
  }

  function Prepend(bs: seq<byte>, rest: Option<seq<byte>>): Option<seq<byte>>
  {
    match rest
    case None => None
    case Some(r) => Some(bs + r)
  }

  /**
   * url.QueryUnescape(s): "%XX" is the byte with hex value XX (an incomplete
   * or non-hex escape is an error), '+' is a space, and any other character
   * stands for its own bytes.
   */
  function QueryUnescape(s: string): (r: Option<seq<byte>>)
    ensures r.None? ==> '%' in s
    ensures (forall i | 0 <= i < |s| :: s[i] != '%' && s[i] != '+') ==> r == Some(Utf8String(s))
    decreases |s|
  {
    if s == [] then Some([])
    else if s[0] == '%' then
      if |s| < 3 then None
      else
        match (Unhex(s[1]), Unhex(s[2]))
        case (Some(hi), Some(lo)) =>
          assert hi < 16 && lo < 16;
          Prepend([16 * hi + lo], QueryUnescape(s[3..]))
        case _ => None
    else if s[0] == '+' then Prepend([' ' as int], QueryUnescape(s[1..]))
    else Prepend(Utf8(s[0]), QueryUnescape(s[1..]))
  }

  lemma UnhexDigit(n: nat)
    requires n < 16
    ensures Unhex(HexDigits[n]) == Some(n)
  {
  }

  lemma UnescapePercent(b: byte, rest: string)
    requires !IsUnreserved(b) && b != ' ' as int
    ensures QueryUnescape(EscapeByte(b) + rest) == Prepend([b], QueryUnescape(rest))
  {
    var s := EscapeByte(b) + rest;
    assert s[0] == '%' && s[3..] == rest;
    UnhexDigit(b / 16);
    UnhexDigit(b % 16);
    assert s[1] == HexDigits[b / 16] && s[2] == HexDigits[b % 16];
  }

  /** Each escaped byte unescapes back to itself, whatever follows it. */
  lemma UnescapeByte(b: byte, rest: string)
    ensures QueryUnescape(EscapeByte(b) + rest) == Prepend([b], QueryUnescape(rest))
  {
    var s := EscapeByte(b) + rest;
    if IsUnreserved(b) {
      assert s[0] == b as char && s[1..] == rest;
    } else if b == ' ' as int {
      assert s[0] == '+' && s[1..] == rest;
    } else {
      UnescapePercent(b, rest);
    }
  }

  /** Unescaping undoes escaping: the remote service reads back exactly the bytes that were sent. */
  lemma {:induction false} UnescapeEscape(bs: seq<byte>)
    ensures QueryUnescape(EscapeBytes(bs)) == Some(bs)
  {
    if bs != [] {
      UnescapeEscape(bs[1..]);
      UnescapeByte(bs[0], EscapeBytes(bs[1..]));
      assert [bs[0]] + bs[1..] == bs;
    }
  }

  /** The escaped form of a name never contains a character that delimits the query or its filter. */
  lemma EscapedHasNoDelimiters(s: string)
    ensures ',' !in QueryEscape(s) && '&' !in QueryEscape(s)
    ensures ':' !in QueryEscape(s) && '=' !in QueryEscape(s)
  {
  }
}
