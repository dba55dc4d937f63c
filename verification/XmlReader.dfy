/** The part of the XML stream reader that the service metadata parser relies on: a stream of tokens, and
  the reading of an element's text. */
module XmlReader {

  /** `Other` stands for comments, processing instructions and the start of the document. */
  datatype Token =
    | Other
    | StartElement(name: string, attributes: map<string, string>)
    | EndElement(name: string)
    | Characters(text: string)
    | EndDocument
    | Invalid

  /** The current token and those still to come. */
  datatype Reader = Reader(token: Token, rest: seq<Token>)

  predicate AtEnd(r: Reader) {
    r.token.EndDocument? || r.token.Invalid?
  }

  /** A stream that stops before the end of the document is an error, and so is reading on after one. */
  function Next(r: Reader): Reader {
    if r.token.Invalid? then r
    else if r.rest == [] then Reader(Invalid, [])
    else Reader(r.rest[0], r.rest[1..])
  }

  function Left(r: Reader): nat {
    |r.rest| + (if AtEnd(r) then 0 else 1)
  }

  predicate IsStart(r: Reader, name: string) {
    r.token.StartElement? && r.token.name == name
  }

  predicate IsEnd(r: Reader, name: string) {
    r.token.EndElement? && r.token.name == name
  }

  /** readElementText: the text up to the end of the element. A child element is an error: the text so far
      is returned all the same, and the reader is at its end. */
  function ElementText(r: Reader): (res: (string, Reader))
    requires !AtEnd(r)
    ensures Left(res.1) < Left(r)
    decreases |r.rest|
  {
    if r.rest == [] then ("", Reader(Invalid, []))
    else
      var n := Next(r);
      match n.token
      case Characters(text) =>
        var (more, end) := ElementText(n);
        (text + more, end)
      case Other => ElementText(n)
      case EndElement(_) => ("", n)
      case _ => ("", Reader(Invalid, []))
  }

  class QXmlStreamReader {
    var token: Token
    var rest: seq<Token>

    function View(): Reader
      reads this
    {
      Reader(token, rest)
    }

    constructor (tokens: seq<Token>)
      ensures View() == Reader(Other, tokens)
    {
      token, rest := Other, tokens;
    }

    method ReadNext()
      modifies this
      ensures View() == Next(old(View()))
    {
      if !token.Invalid? {
        if rest == [] {
          token := Invalid;
        } else {
          token, rest := rest[0], rest[1..];
        }
      }
    }

    method ReadElementText() returns (text: string)
      requires !AtEnd(View())
      modifies this
      ensures (text, View()) == ElementText(old(View()))
    {
      text := "";
      ghost var start := View();
      assert "" + ElementText(start).0 == ElementText(start).0;
      while true
        invariant !AtEnd(View())
        invariant ElementText(start) == (text + ElementText(View()).0, ElementText(View()).1)
        decreases |rest|
      {
        assert text + "" == text;
        if rest == [] {
          token := Invalid;
          return;
        }
        ReadNext();
        match token
        case Characters(more) =>
          assert text + (more + ElementText(View()).0) == text + more + ElementText(View()).0;
          text := text + more;
        case Other =>
        case EndElement(_) =>
          return;
        case _ =>
          token, rest := Invalid, [];
          return;
      }
    }
  }
}
