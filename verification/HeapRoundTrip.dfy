/** Both printers and the parser on one linked tree. */
module HeapRoundTrip {
  import opened CText
  import opened JsonValue
  import opened CJsonNode
  import opened NodeTree
  import opened TreeView
  import opened ChildList
  import opened Printer
  import opened RoundTrip
  import opened PrintWalk
  import AllocPrinter
  import BufferedPrinter
  import TreeParser

  /** From any first size of the buffer, the two printers write the same text. */
  method PrintBothWays(item: Node, prebuffer: nat, fmt: bool, ghost w: View, ghost v: Json)
    returns (composed: seq<byte>, buffered: seq<byte>)
    requires Prints(item, w, v) && BufferedPrinter.Fits([], Text(v, 0, fmt))
    ensures composed == buffered
  {
    hide Prints, Text;
    composed := AllocPrinter.Print(item, fmt, w, v);
    buffered := BufferedPrinter.PrintBuffered(item, prebuffer, fmt, w, v);
  }

  /** Printing a tree and parsing the text builds a new tree for the same value. */
  method PrintAndParse(item: Node, prebuffer: nat, fmt: bool, ghost w: View, ghost v: Json)
    returns (c: Node?, ghost s': NodeShape)
    requires Prints(item, w, v) && BufferedPrinter.Fits([], Text(v, 0, fmt))
    ensures c != null && s'.node == c && fresh(s'.nodes) && Alone(s') && TreeOf(s', v)
  {
    hide Prints, Text, Alone, TreeOf;
    PrintableOf(item, w, v);
    PrintedParses(v, fmt);
    var text := BufferedPrinter.PrintBuffered(item, prebuffer, fmt, w, v);
    var end;
    c, end, s' := TreeParser.ParseWithOpts(text, true);
  }
}
