/**
  The two directions of the codec side by side: what the serialiser writes,
  the request parser's line handling reads back. The headers of a response,
  written in any iteration order and read with the parser's header loop, give
  back the response's header map, and the text after the empty line gives
  back its body.
 */
module Exchange {
  import opened Wrappers
  import opened Text
  import opened Types
  import opened Requests
  import opened Responses

  /** The name and value pairs the map yields in `order`. */
  function OrderedPairs(order: seq<string>, header: Header): (hs: seq<(string, string)>)
    requires forall k | 0 <= k < |order| :: order[k] in header
    ensures |hs| == |order|
  {
    seq(|order|, k requires 0 <= k < |order| => (order[k], header[order[k]]))
  }

  /**
    Inserting the entries of a map in any iteration order rebuilds the map:
    the names are distinct, so no insertion is overwritten.
   */
  lemma InsertEnumeration(order: seq<string>, header: Header)
    requires IsEnumeration(order, header.Keys)
    ensures HeaderMapOf(OrderedPairs(order, header)) == header
  {
    var hs := OrderedPairs(order, header);
    HeaderMapKeys(hs);
    forall key | key in header
      ensures key in HeaderMapOf(hs) && HeaderMapOf(hs)[key] == header[key]
    {
      var j :| 0 <= j < |order| && order[j] == key;
      assert hs[j] == (key, header[key]);
      HeaderMapValue(hs, j);
    }
  }

  /**
    The header lines a response writes, read by the request parser's header
    loop, give back the header map, for every iteration order, when every
    entry passes through a header line unchanged (no colon, no line break, no
    leading whitespace in the value).
   */
  lemma HeadersReadBack(order: seq<string>, header: Header)
    requires IsEnumeration(order, header.Keys)
    requires forall key | key in header :: CleanHeader(key, header[key])
    ensures Headers(EntryLines(order, header)) == Ok(header)
  {
    var hs := OrderedPairs(order, header);
    assert HeaderLines(hs) == EntryLines(order, header);
    HeadersOfHeaderLines(hs);
    InsertEnumeration(order, header);
  }

  /**
    A serialised response read with the request parser's sectioning: after
    the status line, the lines up to the first empty one are exactly the
    header lines and parse to the response's header map, and the lines after
    it join back to the body.
   */
  lemma ResponseReadBack(r: Response, order: seq<string>)
    requires IsEnumeration(order, r.header.Keys)
    requires CleanLine(r.statusReason)
    requires forall key | key in r.header :: CleanHeader(key, r.header[key])
    requires CleanBody(r.body)
    ensures |Lines(Serialized(r, order))| >= 1
    ensures HeaderSection(Lines(Serialized(r, order))[1..]) == EntryLines(order, r.header)
    ensures Headers(HeaderSection(Lines(Serialized(r, order))[1..])) == Ok(r.header)
    ensures BodyText(Lines(Serialized(r, order))[1..]) == r.body
  {
    SerializedLines(r, order);
    MessageSections(Lines(Serialized(r, order)), StatusText(r), EntryLines(order, r.header), Lines(r.body));
    JoinLines(r.body);
    HeadersReadBack(order, r.header);
  }
}
