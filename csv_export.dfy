/**
 * `write_to_csv`: one event becomes a header list and a row of fields,
 * taken from the children of its XML `System` element, its message and its
 * XML text; both are joined with unescaped commas.
 */
module CsvExport {
  import opened Wrappers
  import opened Text
  import opened Events

  /** A child element of `System`: its name, attributes and text content, if any. */
  datatype XmlChild = XmlChild(name: string, attributes: map<string, string>, text: Option<string>)

  /** The children whose value is an attribute, and the attribute each one gives. */
  function AttributeFor(name: string): Option<string> {
    if name == "Provider" then Some("Name")
    else if name == "TimeCreated" then Some("SystemTime")
    else if name == "Correlation" then Some("ActivityID")
    else if name == "Execution" then Some("ProcessID")
    else None
  }

  /** `system.get_child(name).and_then(|e| e.attributes.get(attr))`, "" when either is missing. */
  function FirstChildAttribute(children: seq<XmlChild>, name: string, attr: string): string {
    if children == [] then ""
    else if children[0].name == name then
      (if attr in children[0].attributes then children[0].attributes[attr] else "")
    else FirstChildAttribute(children[1..], name, attr)
  }

  /**
   * The field written for one child: for the four attribute children, the
   * attribute of the FIRST child of that name; otherwise its text, or "".
   */
  function ChildValue(children: seq<XmlChild>, child: XmlChild): string {
    match AttributeFor(child.name)
    case Some(attr) => FirstChildAttribute(children, child.name, attr)
    case None => if child.text.Some? then child.text.value else ""
  }

  function Names(children: seq<XmlChild>): (r: seq<string>)
    ensures |r| == |children| && forall i :: 0 <= i < |children| ==> r[i] == children[i].name
  {
    seq(|children|, i requires 0 <= i < |children| => children[i].name)
  }

  function ChildValues(children: seq<XmlChild>): (r: seq<string>)
    ensures |r| == |children|
  {
    seq(|children|, i requires 0 <= i < |children| => ChildValue(children, children[i]))
  }

  /** `headers.push(h)` unless `headers.contains(h)`. */
  function WithHeader(headers: seq<string>, h: string): seq<string> {
    if h in headers then headers else headers + [h]
  }

  /** The names in order of first appearance, each once. */
  function Dedup(names: seq<string>): seq<string> {
    if names == [] then [] else WithHeader(Dedup(names[..|names| - 1]), names[|names| - 1])
  }

  /** The header list of one event. */
  function Headers(children: seq<XmlChild>): seq<string> {
    WithHeader(WithHeader(Dedup(Names(children)), "Message"), "XML")
  }

  /** The XML field: "\r\n" and then "\n" replaced by "|". */
  function FlattenXml(xml: string): string {
    ReplaceAll(ReplaceAll(xml, "\r\n", "|"), "\n", "|")
  }

  /** The row of one event: child values, the first message line if any, the flattened XML. */
  function RowFields(children: seq<XmlChild>, message: string, xml: string): seq<string> {
    ChildValues(children)
    + (match FirstLine(message) case Some(line) => [line] case None => [])
    + [FlattenXml(xml)]
  }

  /**
   * The loop of `write_to_csv` over the `System` children and the pushes
   * after it: the header list and the row fields of one event.
   */
  method BuildRecord(children: seq<XmlChild>, message: string, xml: string)
    returns (headers: seq<string>, rows: seq<string>)
    ensures headers == Headers(children)
    ensures rows == RowFields(children, message, xml)
  {
    headers := [];
    rows := [];
    var providerName := FirstChildAttribute(children, "Provider", "Name");
    var systemTime := FirstChildAttribute(children, "TimeCreated", "SystemTime");
    var activityId := FirstChildAttribute(children, "Correlation", "ActivityID");
    var processId := FirstChildAttribute(children, "Execution", "ProcessID");
    var i := 0;
    while i < |children|
      invariant 0 <= i <= |children|
      invariant headers == Dedup(Names(children)[..i])
      invariant rows == ChildValues(children)[..i]
    {
      var name := children[i].name;
      var value :=
        if name == "Provider" then providerName
        else if name == "TimeCreated" then systemTime
        else if name == "Correlation" then activityId
        else if name == "Execution" then processId
        else if children[i].text.Some? then children[i].text.value
        else "";
      if name !in headers {
        headers := headers + [name];
      }
      rows := rows + [value];
      assert Names(children)[..i + 1][..i] == Names(children)[..i];
      assert ChildValues(children)[..i + 1] == ChildValues(children)[..i] + [value];
      i := i + 1;
    }
    assert Names(children)[..i] == Names(children);
    assert ChildValues(children)[..i] == ChildValues(children);
    if "Message" !in headers {
      headers := headers + ["Message"];
    }
    var firstLine := FirstLine(message);
    if firstLine.Some? {
      rows := rows + [firstLine.value];
    }
    if "XML" !in headers {
      headers := headers + ["XML"];
    }
    rows := rows + [ReplaceAll(ReplaceAll(xml, "\r\n", "|"), "\n", "|")];
  }

  /**
   * The text `write_to_csv` appends for one event: the header line only when
   * the file is empty (position 0 after seeking to its end), then the row.
   * An event whose XML has no `System` element is an error.
   */
  function CsvText(system: Option<seq<XmlChild>>, event: EvtEvent, position: nat): Result<string, string> {
    match system
    case None => Err("Missing 'System' Element")
    case Some(children) =>
      var header := if position == 0 then Join(Headers(children), ',') + "\n" else "";
      Ok(header + Join(RowFields(children, event.message, event.xml), ',') + "\n")
  }

  /** `write_to_csv` for an event whose XML parsed, given the file's length. */
  method WriteToCsv(system: Option<seq<XmlChild>>, event: EvtEvent, position: nat) returns (r: Result<string, string>)
    ensures r == CsvText(system, event, position)
  {
    if system.None? {
      return Err("Missing 'System' Element");
    }
    var headers, rows := BuildRecord(system.value, event.message, event.xml);
    var text := "";
    if position == 0 {
      text := Join(headers, ',') + "\n";
    }
    text := text + Join(rows, ',') + "\n";
    return Ok(text);
  }

  // ----- properties -----

  /** The position of the first occurrence of x. */
  function FirstIndex(names: seq<string>, x: string): (r: nat)
    requires x in names
    ensures r < |names| && names[r] == x && forall k :: 0 <= k < r ==> names[k] != x
  {
    if names[0] == x then 0 else 1 + FirstIndex(names[1..], x)
  }

  /** Appending a name moves no first occurrence of a name already present. */
  lemma {:induction false} FirstIndexAppend(names: seq<string>, y: string, x: string)
    requires x in names
    ensures FirstIndex(names + [y], x) == FirstIndex(names, x)
  {
    var r := FirstIndex(names, x);
    var r' := FirstIndex(names + [y], x);
    assert (names + [y])[r] == x;
    assert r' <= r;
    assert names[r'] == x;
  }

  /**
   * Dedup keeps each name once, loses none, and lists them in the order of
   * their first appearance.
   */
  lemma {:induction false} DedupExactly(names: seq<string>)
    ensures forall x :: x in Dedup(names) <==> x in names
    ensures forall i, j :: 0 <= i < j < |Dedup(names)| ==> Dedup(names)[i] != Dedup(names)[j]
    ensures forall i, j :: 0 <= i < j < |Dedup(names)| ==>
              FirstIndex(names, Dedup(names)[i]) < FirstIndex(names, Dedup(names)[j])
  {
    if names != [] {
      var init := names[..|names| - 1];
      var last := names[|names| - 1];
      DedupExactly(init);
      assert names == init + [last];
      var d := Dedup(init);
      forall x | x in init ensures FirstIndex(names, x) == FirstIndex(init, x) {
        FirstIndexAppend(init, last, x);
      }
      if last !in init {
        assert FirstIndex(names, last) == |init|;
        assert Dedup(names) == d + [last];
        forall i, j | 0 <= i < j < |Dedup(names)|
          ensures FirstIndex(names, Dedup(names)[i]) < FirstIndex(names, Dedup(names)[j])
        {
          assert Dedup(names)[i] == d[i] && d[i] in init;
          if j < |d| {
            assert Dedup(names)[j] == d[j] && d[j] in init;
          }
        }
      }
    }
  }

  /** Names that are already distinct are their own deduplication. */
  lemma {:induction false} DedupOfDistinct(names: seq<string>)
    requires forall i, j :: 0 <= i < j < |names| ==> names[i] != names[j]
    ensures Dedup(names) == names
  {
    if names != [] {
      var init := names[..|names| - 1];
      DedupOfDistinct(init);
      assert names[|names| - 1] !in init;
      assert names == init + [names[|names| - 1]];
    }
  }

  /**
   * The headers hold every child name once, plus "Message" and "XML", and
   * nothing else: first the child names in order of first appearance, then
   * "Message" unless a child bears it, then "XML" unless a child bears it.
   */
  lemma HeadersExactly(children: seq<XmlChild>)
    ensures forall h :: h in Headers(children) <==> h in Names(children) || h == "Message" || h == "XML"
    ensures forall i, j :: 0 <= i < j < |Headers(children)| ==> Headers(children)[i] != Headers(children)[j]
    ensures Headers(children) ==
              Dedup(Names(children))
              + (if "Message" in Names(children) then [] else ["Message"])
              + (if "XML" in Names(children) then [] else ["XML"])
  {
    DedupExactly(Names(children));
  }

  /** Distinct child names other than "Message" and "XML" are the headers as they stand, then those two. */
  lemma HeadersOfDistinct(children: seq<XmlChild>)
    requires forall i, j :: 0 <= i < j < |children| ==> children[i].name != children[j].name
    requires forall i :: 0 <= i < |children| ==> children[i].name != "Message" && children[i].name != "XML"
    ensures Headers(children) == Names(children) + ["Message", "XML"]
  {
    var n := Names(children);
    DedupOfDistinct(n);
    assert "Message" !in n;
    assert WithHeader(n, "Message") == n + ["Message"];
    assert "XML" !in n + ["Message"];
  }

  /**
   * With distinct child names other than "Message" and "XML" and a non-empty
   * message, header i labels row field i: each child's name its value, then
   * "Message" the first line, then "XML" the flattened XML.
   */
  lemma ColumnsAlign(children: seq<XmlChild>, message: string, xml: string)
    requires forall i, j :: 0 <= i < j < |children| ==> children[i].name != children[j].name
    requires forall i :: 0 <= i < |children| ==> children[i].name != "Message" && children[i].name != "XML"
    requires message != ""
    ensures Headers(children) == Names(children) + ["Message", "XML"]
    ensures |RowFields(children, message, xml)| == |Headers(children)|
    ensures forall i :: 0 <= i < |children| ==> RowFields(children, message, xml)[i] == ChildValue(children, children[i])
    ensures RowFields(children, message, xml)[|children|] == FirstLine(message).value
    ensures RowFields(children, message, xml)[|children| + 1] == FlattenXml(xml)
  {
    HeadersOfDistinct(children);
    RowShape(children, message, xml);
  }

  /** A child written as an attribute gets the attribute of the first child sharing its name. */
  lemma {:induction false} FirstChildAttributeIsFirst(children: seq<XmlChild>, name: string, attr: string, k: nat)
    requires k < |children| && children[k].name == name
    requires forall i :: 0 <= i < k ==> children[i].name != name
    ensures FirstChildAttribute(children, name, attr) ==
              if attr in children[k].attributes then children[k].attributes[attr] else ""
  {
    if k > 0 {
      assert children[0].name != name;
      FirstChildAttributeIsFirst(children[1..], name, attr, k - 1);
    }
  }

  /**
   * The row holds one field per child, the message's first line exactly when
   * the message is non-empty, and last the XML with no line breaks left.
   */
  lemma RowShape(children: seq<XmlChild>, message: string, xml: string)
    ensures var row := RowFields(children, message, xml);
            && |row| == |children| + (if message == "" then 0 else 1) + 1
            && (forall i :: 0 <= i < |children| ==> row[i] == ChildValue(children, children[i]))
            && (message != "" ==> row[|children|] == FirstLine(message).value && '\n' !in row[|children|])
            && '\n' !in row[|row| - 1]
  {
    ReplaceCharRemovesIt(ReplaceAll(xml, "\r\n", "|"), '\n', "|");
  }

  /**
   * With distinct child names other than "Message" and "XML", an empty
   * message leaves the row one field short of the header list, so the XML
   * lands under the "Message" column.
   */
  lemma EmptyMessageShortRow(children: seq<XmlChild>, xml: string)
    requires forall i, j :: 0 <= i < j < |children| ==> children[i].name != children[j].name
    requires forall i :: 0 <= i < |children| ==> children[i].name != "Message" && children[i].name != "XML"
    ensures |RowFields(children, "", xml)| + 1 == |Headers(children)|
    ensures Headers(children)[|children|] == "Message"
    ensures RowFields(children, "", xml)[|children|] == FlattenXml(xml)
  {
    HeadersOfDistinct(children);
    assert FirstLine("").None?;
    assert RowFields(children, "", xml) == ChildValues(children) + [FlattenXml(xml)];
  }

  lemma {:induction false} DedupLength(names: seq<string>)
    requires forall i, j :: 0 <= i < j < |names| ==> names[i] != names[j]
    ensures |Dedup(names)| == |names|
  {
    if names != [] {
      var init := names[..|names| - 1];
      DedupLength(init);
      DedupExactly(init);
      assert names[|names| - 1] !in init;
    }
  }

  /**
   * The header line is written exactly when the file is empty, and a row
   * line reads back into its fields when no field holds a comma.
   */
  lemma CsvTextShape(children: seq<XmlChild>, event: EvtEvent, position: nat)
    requires forall i :: 0 <= i < |RowFields(children, event.message, event.xml)| ==>
               ',' !in RowFields(children, event.message, event.xml)[i]
    ensures var r := CsvText(Some(children), event, position);
            && r.Ok?
            && (position == 0 ==> r.value == Join(Headers(children), ',') + "\n" + Join(RowFields(children, event.message, event.xml), ',') + "\n")
            && (position != 0 ==> r.value == Join(RowFields(children, event.message, event.xml), ',') + "\n")
    ensures Split(Join(RowFields(children, event.message, event.xml), ','), ',') == RowFields(children, event.message, event.xml)
  {
    SplitJoin(RowFields(children, event.message, event.xml), ',');
  }
}
