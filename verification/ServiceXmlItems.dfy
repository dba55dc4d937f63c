/** What the service metadata parser makes of an interface: elements with text, in any order and with anything
  blank between them, told by their texts alone. */
module ServiceXmlItems {
  import opened Text
  import opened Version
  import opened Descriptor
  import opened XmlReader
  import opened ServiceXml

  // ---------------------------------------------------------------------------------------------
  // Elements that hold text
  // ---------------------------------------------------------------------------------------------

  /** An element that holds text, and what comes before it. */
  datatype Item = Item(gap: seq<Token>, tag: string, attributes: map<string, string>, content: seq<Token>)

  /** Text, comments and the like. */
  predicate Blank(tokens: seq<Token>) {
    forall t | t in tokens :: t.Characters? || t.Other?
  }

  predicate Flat(items: seq<Item>) {
    forall i | i in items :: Blank(i.gap) && Blank(i.content)
  }

  function TextOf(tokens: seq<Token>): string {
    if tokens == [] then ""
    else (if tokens[0].Characters? then tokens[0].text else "") + TextOf(tokens[1..])
  }

  /** From the start of an element on. */
  function ElementTokens(i: Item, rest: seq<Token>): seq<Token> {
    [StartElement(i.tag, i.attributes)] + (i.content + ([EndElement(i.tag)] + rest))
  }

  function ItemsTokens(items: seq<Item>, rest: seq<Token>): seq<Token> {
    if items == [] then rest else items[0].gap + ElementTokens(items[0], ItemsTokens(items[1..], rest))
  }

  lemma {:induction false} ContentRead(content: seq<Token>, name: string, rest: seq<Token>, token: Token)
    requires Blank(content) && !token.EndDocument? && !token.Invalid?
    ensures ElementText(Reader(token, content + ([EndElement(name)] + rest))) ==
              (TextOf(content), Reader(EndElement(name), rest))
    decreases |content|
  {
    var all := content + ([EndElement(name)] + rest);
    if content == [] {
      assert all == [EndElement(name)] + rest;
      assert all[1..] == rest;
    } else {
      assert all[0] == content[0] && content[0] in content;
      assert all[1..] == content[1..] + ([EndElement(name)] + rest);
      ContentRead(content[1..], name, rest, content[0]);
      assert "" + TextOf(content[1..]) == TextOf(content[1..]);
    }
  }

  // ---------------------------------------------------------------------------------------------
  // The loop over an interface
  // ---------------------------------------------------------------------------------------------

  /** The loop over an interface skips what is blank. */
  lemma {:induction false} InterfaceGap(s: Iface, gap: seq<Token>, rest: seq<Token>, token: Token)
    requires s.error.None? && Blank(gap) && !token.EndDocument? && !token.Invalid?
    ensures InterfaceLoop(s, Reader(token, gap + rest)) == InterfaceLoop(s, Reader(Other, rest))
    decreases |gap|
  {
    if gap == [] {
      assert gap + rest == rest;
      hide InterfaceTag;
    } else {
      var all := gap + rest;
      assert all[0] == gap[0] && gap[0] in gap && all[1..] == gap[1..] + rest;
      InterfaceGap(s, gap[1..], rest, gap[0]);
      hide ElementText;
    }
  }

  /** What an element changes. */
  function ItemRead(s: Iface, i: Item): Iface {
    var text := TextOf(i.content);
    if i.tag == "name" then Named(s, text)
    else if i.tag == "description" then Described(s, text)
    else if i.tag == "version" then Versioned(s, text)
    else if i.tag == "capabilities" then Capable(s, text)
    else if i.tag != "customproperty" then s.(error := Some(ParseInterface))
    else if "key" !in i.attributes || i.attributes["key"] == "" then s.(error := Some(InvalidCustomTag))
    else if i.attributes["key"] in s.d.customAttributes then s.(error := Some(DuplicatedCustomKey))
    else Customized(s, i.attributes["key"], text)
  }

  lemma {:induction false} ItemStep(s: Iface, i: Item, rest: seq<Token>)
    requires s.error.None? && Blank(i.gap) && Blank(i.content)
    ensures var res, s' := InterfaceLoop(s, Reader(Other, i.gap + ElementTokens(i, rest))), ItemRead(s, i);
      if s'.error.Some? then res.0 == s' else res == InterfaceLoop(s', Reader(Other, rest))
  {
    hide InterfaceTag, ItemRead, ElementText;
    var n := Reader(StartElement(i.tag, i.attributes), i.content + ([EndElement(i.tag)] + rest));
    InterfaceGap(s, i.gap, ElementTokens(i, rest), Other);
    TagRead(s, i, rest);
    assert ElementTokens(i, rest)[1..] == n.rest;
    var (s', r') := InterfaceTag(s, n);
    if s'.error.None? {
      InterfaceGap(s', [], rest, r'.token);
      assert [] + rest == rest;
    }
  }

  lemma {:induction false} TagRead(s: Iface, i: Item, rest: seq<Token>)
    requires s.error.None? && Blank(i.content)
    ensures var (s', r') :=
        InterfaceTag(s, Reader(StartElement(i.tag, i.attributes), i.content + ([EndElement(i.tag)] + rest)));
      s' == ItemRead(s, i) && (s'.error.None? ==> r' == Reader(EndElement(i.tag), rest))
  {
    ContentRead(i.content, i.tag, rest, StartElement(i.tag, i.attributes));
    hide ElementText, CheckVersion, Capable, TransformVersion;
  }

  /** What a list of elements comes to: reading stops at the first error. */
  function ItemsRead(items: seq<Item>): Iface {
    if items == [] then NEW_IFACE
    else
      var s := ItemsRead(items[..|items| - 1]);
      if s.error.Some? then s else ItemRead(s, items[|items| - 1])
  }

  lemma {:induction false} ItemsStep(items: seq<Item>, k: nat, rest: seq<Token>)
    requires k <= |items| && Flat(items)
    ensures var s, s' := ItemsRead(items[..k]), ItemsRead(items);
      s.error.None? ==>
        var res := InterfaceLoop(s, Reader(Other, ItemsTokens(items[k..], rest)));
        if s'.error.Some? then res.0 == s' else res == InterfaceLoop(s', Reader(Other, rest))
    ensures ItemsRead(items[..k]).error.Some? ==> ItemsRead(items) == ItemsRead(items[..k])
    decreases |items| - k
  {
    hide ItemRead, InterfaceLoop, ElementTokens;
    if k == |items| {
      assert items[..k] == items && items[k..] == [];
    } else {
      ItemsStep(items, k + 1, rest);
      assert items[..k + 1][..k] == items[..k] && items[..k + 1][k] == items[k];
      assert items[k..][0] == items[k] && items[k..][1..] == items[k + 1..];
      assert items[k] in items;
      if ItemsRead(items[..k]).error.None? {
        ItemStep(ItemsRead(items[..k]), items[k], ItemsTokens(items[k + 1..], rest));
      }
    }
  }

  lemma {:induction false} AllItems(items: seq<Item>, end: seq<Token>, rest: seq<Token>, token: Token)
    requires Flat(items) && Blank(end) && !token.EndDocument? && !token.Invalid?
    ensures var s := ItemsRead(items);
      var res := InterfaceLoop(NEW_IFACE,
        Reader(token, ItemsTokens(items, end + ([EndElement("interface")] + rest))));
      res.0 == s && (s.error.None? ==> res.1 == Reader(EndElement("interface"), rest))
  {
    var last := [EndElement("interface")] + rest;
    var s, all := ItemsRead(items), ItemsTokens(items, end + last);
    ItemsStep(items, 0, end + last);
    assert items[..0] == [] && items[0..] == items && [] + all == all;
    InterfaceGap(NEW_IFACE, [], all, token);
    hide ItemsRead, ItemsTokens, InterfaceTag;
    if s.error.None? {
      InterfaceGap(s, end, last, Other);
      assert last[1..] == rest;
    }
  }

  // ---------------------------------------------------------------------------------------------
  // What the elements say
  // ---------------------------------------------------------------------------------------------

  /** The texts of the elements with this tag. */
  function Texts(items: seq<Item>, tag: string): seq<string> {
    if items == [] then []
    else
      var texts, last := Texts(items[..|items| - 1], tag), items[|items| - 1];
      if last.tag == tag then texts + [TextOf(last.content)] else texts
  }

  function LastOr(texts: seq<string>, other: string): string {
    if texts == [] then other else texts[|texts| - 1]
  }

  predicate HasKey(i: Item, key: string) {
    i.tag == "customproperty" && "key" in i.attributes && i.attributes["key"] == key
  }

  /** What is wrong with an element of an interface as it stands, or because of one before it. */
  function Offence(items: seq<Item>, k: nat): Option<Error>
    requires k < |items|
  {
    var i := items[k];
    if i.tag == "customproperty" then
      if "key" !in i.attributes || i.attributes["key"] == "" then Some(InvalidCustomTag)
      else if exists j | 0 <= j < k :: HasKey(items[j], i.attributes["key"]) then Some(DuplicatedCustomKey)
      else None
    else if i.tag == "version" then
      if TextOf(i.content) != "" && !CheckVersion(TextOf(i.content)) then Some(InvalidVersion) else None
    else if i.tag == "name" || i.tag == "description" || i.tag == "capabilities" then None
    else Some(ParseInterface)
  }

  ghost predicate FirstOffence(items: seq<Item>, k: nat) {
    k < |items| && Offence(items, k).Some? && forall j: nat | j < k :: Offence(items, j).None?
  }

  ghost predicate Inoffensive(items: seq<Item>) {
    forall k: nat | k < |items| :: Offence(items, k).None?
  }

  /** The error of an interface: that of its first offending element; or else what is missing, or there twice. */
  ghost function InterfaceError(items: seq<Item>): Option<Error> {
    var versions := NonEmpty(Texts(items, "version"));
    if k: nat :| FirstOffence(items, k) then Offence(items, k)
    else if versions == [] then Some(NoInterfaceVersion)
    else if LastOr(Texts(items, "name"), "") == "" then Some(NoInterfaceName)
    else if |Texts(items, "name")| > 1 || |versions| > 1 || |Texts(items, "capabilities")| > 1
      || |Texts(items, "description")| > 1 then Some(DuplicatedTag)
    else None
  }

  function CustomsGiven(items: seq<Item>): map<string, string> {
    if items == [] then map[]
    else
      var customs, last := CustomsGiven(items[..|items| - 1]), items[|items| - 1];
      if last.tag == "customproperty" && "key" in last.attributes
      then customs[last.attributes["key"] := TextOf(last.content)] else customs
  }

  /** The interface described: the last text of each tag counts, and of the versions those that are not empty. */
  function InterfaceGiven(items: seq<Item>): Descriptor {
    var version, capabilities, description :=
      LastOr(NonEmpty(Texts(items, "version")), ""), Texts(items, "capabilities"), Texts(items, "description");
    Descriptor(LastOr(Texts(items, "name"), ""), "", TransformVersion(version).major, TransformVersion(version).minor,
      NO_ATTRIBUTES.(
        capabilities := if capabilities == [] then None else Some(NonEmpty(SplitAt(LastOr(capabilities, ""), ','))),
        interfaceDescription := if description == [] then None else Some(LastOr(description, ""))),
      CustomsGiven(items), UserScope)
  }

  // ---------------------------------------------------------------------------------------------
  // What is read is what they say
  // ---------------------------------------------------------------------------------------------

  function Tally(items: seq<Item>): Iface {
    Iface(InterfaceGiven(items), |Texts(items, "name")|, |NonEmpty(Texts(items, "version"))|,
      |Texts(items, "capabilities")|, |Texts(items, "description")|, None)
  }

  lemma {:induction false} OneMoreText(texts: seq<string>, text: string)
    ensures NonEmpty(texts + [text]) == if text == "" then NonEmpty(texts) else NonEmpty(texts) + [text]
  {
    var all := texts + [text];
    if texts != [] {
      assert all[1..] == texts[1..] + [text];
      OneMoreText(texts[1..], text);
    }
  }

  lemma {:induction false} KeysGiven(items: seq<Item>, key: string)
    ensures key in CustomsGiven(items) <==> exists j | 0 <= j < |items| :: HasKey(items[j], key)
  {
    if items != [] {
      var n := |items| - 1;
      KeysGiven(items[..n], key);
      assert forall j | 0 <= j < n :: items[..n][j] == items[j];
      assert HasKey(items[n], key) ==> exists j | 0 <= j < |items| :: HasKey(items[j], key);
    }
  }

  lemma {:induction false} OffenceBefore(items: seq<Item>, n: nat, k: nat)
    requires k < n <= |items|
    ensures Offence(items[..n], k) == Offence(items, k)
  {
    assert forall j | 0 <= j <= k :: items[..n][j] == items[j];
  }

  /** What one element more adds to what the elements say. */
  lemma {:induction false} SaidBefore(items: seq<Item>)
    requires items != []
    ensures var n := |items| - 1; var i, before := items[n], items[..n];
      var text, versions := TextOf(i.content), NonEmpty(Texts(before, "version"));
      && (forall tag :: Texts(items, tag) ==
            if i.tag == tag then Texts(before, tag) + [text] else Texts(before, tag))
      && NonEmpty(Texts(items, "version")) ==
         (if i.tag == "version" && text != "" then versions + [text] else versions)
      && CustomsGiven(items) ==
         (if i.tag == "customproperty" && "key" in i.attributes
          then CustomsGiven(before)[i.attributes["key"] := text] else CustomsGiven(before))
  {
    hide NonEmpty;
    var n := |items| - 1;
    OneMoreText(Texts(items[..n], "version"), TextOf(items[n].content));
  }

  lemma {:induction false} TallyStep(items: seq<Item>)
    requires items != []
    ensures var n := |items| - 1; var s := ItemRead(Tally(items[..n]), items[n]);
      if Offence(items, n).None? then s == Tally(items) else s.error == Offence(items, n)
  {
    hide NonEmpty, SplitAt, CheckVersion, TransformVersion, Texts, CustomsGiven, TextOf;
    SaidBefore(items);
    if items[|items| - 1].tag == "customproperty" {
      CustomStep(items);
    }
  }

  lemma {:induction false} CustomStep(items: seq<Item>)
    requires items != [] && items[|items| - 1].tag == "customproperty"
    ensures var n := |items| - 1; var s := ItemRead(Tally(items[..n]), items[n]);
      if Offence(items, n).None? then s == Tally(items) else s.error == Offence(items, n)
  {
    hide NonEmpty, SplitAt, TransformVersion, Texts, CustomsGiven, TextOf, LastOr;
    SaidBefore(items);
    var n := |items| - 1;
    var i, before := items[n], items[..n];
    if "key" in i.attributes {
      KeysGiven(before, i.attributes["key"]);
      assert forall j | 0 <= j < n :: before[j] == items[j];
    }
  }

  lemma {:induction false} ItemsTallied(items: seq<Item>)
    ensures Inoffensive(items) ==> ItemsRead(items) == Tally(items)
    ensures forall k | FirstOffence(items, k) :: ItemsRead(items).error == Offence(items, k)
  {
    if items != [] {
      var n := |items| - 1;
      var before := items[..n];
      ItemsTallied(before);
      hide Tally, ItemRead, Offence;
      forall k: nat | k < n
        ensures Offence(before, k) == Offence(items, k)
      {
        OffenceBefore(items, n, k);
      }
      if Inoffensive(before) {
        TallyStep(items);
      }
      forall k: nat | FirstOffence(items, k) && k < n
        ensures ItemsRead(items).error == Offence(items, k)
      {
        assert FirstOffence(before, k);
      }
    }
  }

  lemma {:induction false} FirstOne(items: seq<Item>, k: nat)
    requires k < |items| && Offence(items, k).Some?
    ensures exists j :: FirstOffence(items, j)
    decreases k
  {
    hide Offence;
    if j: nat :| j < k && Offence(items, j).Some? {
      FirstOne(items, j);
    } else {
      assert FirstOffence(items, k);
    }
  }

  lemma {:induction false} CheckedItems(items: seq<Item>)
    ensures InterfaceChecked(ItemsRead(items)).error == InterfaceError(items)
    ensures InterfaceError(items).None? ==> InterfaceChecked(ItemsRead(items)) == Tally(items)
  {
    ItemsTallied(items);
    hide ItemsRead, Offence, Texts, NonEmpty, TransformVersion, CustomsGiven, SplitAt;
    if !Inoffensive(items) {
      var k: nat :| k < |items| && Offence(items, k).Some?;
      FirstOne(items, k);
    }
  }

  /** An interface whose elements hold text, in a document: it is read in full if nothing is wrong with it and it is
      new, and then is what its elements say. */
  lemma {:induction false} InterfaceMeans(m: MetaData, attributes: map<string, string>, items: seq<Item>,
      end: seq<Token>, rest: seq<Token>)
    requires Flat(items) && Blank(end)
    ensures var o := InterfaceElement(m, Reader(StartElement("interface", attributes),
        ItemsTokens(items, end + ([EndElement("interface")] + rest))));
      var d := InterfaceGiven(items);
      match InterfaceError(items)
      case Some(e) => !o.ok && o.m == m.(latestError := e)
      case None =>
        if Ident(d) in m.duplicates then !o.ok && o.m == m.(latestError := DuplicatedInterface)
        else o == Outcome(Added(m, d), Reader(EndElement("interface"), rest), true)
  {
    AllItems(items, end, rest, StartElement("interface", attributes));
    CheckedItems(items);
    hide InterfaceLoop, ItemsRead, InterfaceError, InterfaceGiven, Ident, Added, ItemsTokens;
  }
}
