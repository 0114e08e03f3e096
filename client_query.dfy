/**
 * `buildQuery` of client/src/App.jsx: the query string the page appends to
 * the list and export URLs. Each filter entry with a non-empty value is
 * appended to a URLSearchParams accumulator; the result is `""` when nothing
 * was appended, else `"?"` and the serialised pairs. The percent-encoding of
 * URLSearchParams is a parameter `encode`; every contract holds for all of
 * them, and the round trip holds for any encoding that writes neither `&`
 * nor `=`.
 */
module ClientQuery {
  import opened JsValues

  /** One entry of the filters object: its key and its (string) value. */
  type Entry = (string, string)

  /** The entries whose value is truthy (a non-empty string), in their order. */
  function Kept(entries: seq<Entry>): seq<Entry> {
    if entries == [] then []
    else
      Kept(entries[..|entries| - 1])
      + (if entries[|entries| - 1].1 != "" then [entries[|entries| - 1]] else [])
  }

  /** An entry is kept exactly when it is an entry with a non-empty value. */
  lemma {:induction false} KeptMembers(entries: seq<Entry>, e: Entry)
    ensures e in Kept(entries) <==> e in entries && e.1 != ""
  {
    if entries != [] {
      var init := entries[..|entries| - 1];
      KeptMembers(init, e);
      assert entries == init + [entries[|entries| - 1]];
    }
  }

  /** Nothing is kept exactly when every value is empty. */
  lemma {:induction false} KeptEmpty(entries: seq<Entry>)
    ensures Kept(entries) == [] <==> forall i :: 0 <= i < |entries| ==> entries[i].1 == ""
  {
    if entries != [] {
      var init := entries[..|entries| - 1];
      KeptEmpty(init);
      assert forall i :: 0 <= i < |init| ==> init[i] == entries[i];
    }
  }

  /** The positions of the kept entries. */
  function KeptPositions(entries: seq<Entry>): seq<nat> {
    if entries == [] then []
    else
      KeptPositions(entries[..|entries| - 1])
      + (if entries[|entries| - 1].1 != "" then [|entries| - 1] else [])
  }

  /** The positions of the kept entries are positions of `entries`, strictly increasing. */
  lemma {:induction false} KeptPositionsIncrease(entries: seq<Entry>)
    ensures forall k :: 0 <= k < |KeptPositions(entries)| ==> KeptPositions(entries)[k] < |entries|
    ensures forall k, l :: 0 <= k < l < |KeptPositions(entries)| ==> KeptPositions(entries)[k] < KeptPositions(entries)[l]
  {
    if entries != [] {
      KeptPositionsIncrease(entries[..|entries| - 1]);
    }
  }

  /**
   * The kept entries are the entries at strictly increasing positions: the
   * order of the filters object is kept.
   */
  lemma {:induction false} KeptInOrder(entries: seq<Entry>)
    ensures |KeptPositions(entries)| == |Kept(entries)|
    ensures forall k :: 0 <= k < |Kept(entries)| ==>
      KeptPositions(entries)[k] < |entries| && Kept(entries)[k] == entries[KeptPositions(entries)[k]]
    ensures forall k, l :: 0 <= k < l < |Kept(entries)| ==> KeptPositions(entries)[k] < KeptPositions(entries)[l]
  {
    KeptPositionsIncrease(entries);
    if entries != [] {
      var init := entries[..|entries| - 1];
      KeptInOrder(init);
      KeptPositionsIncrease(init);
      assert forall i :: 0 <= i < |init| ==> init[i] == entries[i];
    }
  }

  /** `parts` joined with the separator `d`. */
  function Join(parts: seq<string>, d: char): string {
    if parts == [] then ""
    else if |parts| == 1 then parts[0]
    else parts[0] + [d] + Join(parts[1..], d)
  }

  /** The pair `key=value`, each side encoded. */
  function Pair(e: Entry, encode: string -> string): string {
    encode(e.0) + "=" + encode(e.1)
  }

  /** The pair of each entry, in order. */
  function Pairs(entries: seq<Entry>, encode: string -> string): (ps: seq<string>)
    ensures |ps| == |entries| && forall k :: 0 <= k < |entries| ==> ps[k] == Pair(entries[k], encode)
  {
    if entries == [] then [] else [Pair(entries[0], encode)] + Pairs(entries[1..], encode)
  }

  /** `URLSearchParams.toString()`: the pairs joined with `&`. */
  function Serialize(entries: seq<Entry>, encode: string -> string): (s: string)
    ensures s == "" <==> entries == []
  {
    var ps := Pairs(entries, encode);
    JoinEmpty(ps, '&');
    Join(ps, '&')
  }

  /** Joining parts that are all non-empty gives the empty text only for no parts. */
  lemma JoinEmpty(parts: seq<string>, d: char)
    requires forall k :: 0 <= k < |parts| ==> parts[k] != ""
    ensures Join(parts, d) == "" <==> parts == []
  {
    if parts != [] {
      assert Join(parts, d)[0] == parts[0][0];
    }
  }

  /**
   * `buildQuery`: appends every entry with a truthy value, in order, then
   * returns `""` when nothing was appended and `"?"` followed by the
   * serialised pairs otherwise.
   */
  method BuildQuery(params: seq<Entry>, encode: string -> string) returns (query: string)
    ensures query == "" <==> forall i :: 0 <= i < |params| ==> params[i].1 == ""
    ensures query != "" ==> query == "?" + Serialize(Kept(params), encode)
    ensures Escapes(encode) ==> ParseQuery(query) == Some(Encoded(Kept(params), encode))
  {
    var q: seq<Entry> := [];
    var i := 0;
    while i < |params|
      invariant 0 <= i <= |params|
      invariant q == Kept(params[..i])
    {
      var (k, v) := params[i];
      if v != "" {
        q := q + [(k, v)];
      }
      assert params[..i + 1][..i] == params[..i];
      i := i + 1;
    }
    assert params[..i] == params;
    KeptEmpty(params);
    var s := Serialize(q, encode);
    query := if s != "" then "?" + s else "";
    if Escapes(encode) {
      BuildQueryRoundTrip(params, encode, query);
    }
  }

  /** The position of the first `d` in `s`. */
  function FirstIndex(s: string, d: char): (i: nat)
    requires d in s
    ensures i < |s| && s[i] == d && d !in s[..i]
  {
    if s[0] == d then 0
    else
      var i := 1 + FirstIndex(s[1..], d);
      assert s[..i] == [s[0]] + s[1..][..i - 1];
      i
  }

  /** `s` cut at every `d`. */
  function Split(s: string, d: char): (parts: seq<string>)
    ensures parts != []
    decreases |s|
  {
    if d !in s then [s]
    else
      var i := FirstIndex(s, d);
      [s[..i]] + Split(s[i + 1..], d)
  }

  /** In `a`, a separator `d`, then `b`, the first `d` is the separator when `a` holds none. */
  lemma FirstIndexAfter(a: string, d: char, b: string)
    requires d !in a
    ensures d in a + [d] + b
    ensures FirstIndex(a + [d] + b, d) == |a|
    ensures (a + [d] + b)[|a| + 1..] == b
  {
    var s := a + [d] + b;
    assert s[|a|] == d;
    var i := FirstIndex(s, d);
    assert forall k :: 0 <= k < |a| ==> s[k] == a[k];
    assert forall k :: 0 <= k < i ==> s[..i][k] == s[k];
    assert s[|a| + 1..] == b;
  }

  /** Cutting a joined text at the separator gives the parts back, when no part holds the separator. */
  lemma {:induction false} SplitJoin(parts: seq<string>, d: char)
    requires parts != []
    requires forall k :: 0 <= k < |parts| ==> d !in parts[k]
    ensures Split(Join(parts, d), d) == parts
  {
    if |parts| > 1 {
      var rest := Join(parts[1..], d);
      var s := parts[0] + [d] + rest;
      assert Join(parts, d) == s;
      FirstIndexAfter(parts[0], d, rest);
      assert s[..|parts[0]|] == parts[0];
      SplitJoin(parts[1..], d);
    }
  }

  /** Reads one `key=value` pair back; None when the text is not one pair. */
  function ParsePair(p: string): Option<Entry> {
    var kv := Split(p, '=');
    if |kv| == 2 then Some((kv[0], kv[1])) else None
  }

  /** Reads the pairs of a query back; None when some part is not one pair. */
  function ParsePairs(ps: seq<string>): Option<seq<Entry>> {
    if ps == [] then Some([])
    else
      match (ParsePair(ps[0]), ParsePairs(ps[1..]))
      case (Some(e), Some(rest)) => Some([e] + rest)
      case _ => None
  }

  /** Reads a query string back into its (still encoded) pairs. */
  function ParseQuery(query: string): Option<seq<Entry>> {
    if query == "" then Some([])
    else if query[0] != '?' then None
    else ParsePairs(Split(query[1..], '&'))
  }

  /** The entries as the encoding writes them. */
  function Encoded(entries: seq<Entry>, encode: string -> string): (r: seq<Entry>)
    ensures |r| == |entries|
  {
    if entries == [] then [] else [(encode(entries[0].0), encode(entries[0].1))] + Encoded(entries[1..], encode)
  }

  /** An encoding that never writes a separator of the query syntax. */
  ghost predicate Escapes(encode: string -> string) {
    forall s :: '&' !in encode(s) && '=' !in encode(s)
  }

  /** Every pair reads back as its encoded entry. */
  lemma {:induction false} ParsePairsOfPairs(entries: seq<Entry>, encode: string -> string)
    requires Escapes(encode)
    ensures ParsePairs(Pairs(entries, encode)) == Some(Encoded(entries, encode))
  {
    if entries != [] {
      var e := entries[0];
      SplitJoin([encode(e.0), encode(e.1)], '=');
      assert Join([encode(e.0), encode(e.1)], '=') == Pair(e, encode);
      ParsePairsOfPairs(entries[1..], encode);
      assert Pairs(entries, encode)[1..] == Pairs(entries[1..], encode);
    }
  }

  /** No pair holds `&` when the encoding escapes it. */
  lemma PairsHaveNoAmpersand(entries: seq<Entry>, encode: string -> string)
    requires Escapes(encode)
    ensures forall k :: 0 <= k < |entries| ==> '&' !in Pairs(entries, encode)[k]
  {
    forall k | 0 <= k < |entries| ensures '&' !in Pairs(entries, encode)[k] {
      var e := entries[k];
      assert '&' !in encode(e.0) && '&' !in encode(e.1);
      assert Pairs(entries, encode)[k] == encode(e.0) + "=" + encode(e.1);
    }
  }

  /**
   * The query string carries exactly the kept entries, in order: reading it
   * back gives each kept key and value as the encoding wrote them, and
   * nothing when no value was truthy.
   */
  lemma BuildQueryRoundTrip(params: seq<Entry>, encode: string -> string, query: string)
    requires Escapes(encode)
    requires query == (if Kept(params) == [] then "" else "?" + Serialize(Kept(params), encode))
    ensures ParseQuery(query) == Some(Encoded(Kept(params), encode))
  {
    var kept := Kept(params);
    if kept != [] {
      var ps := Pairs(kept, encode);
      PairsHaveNoAmpersand(kept, encode);
      SplitJoin(ps, '&');
      assert query[1..] == Join(ps, '&');
      ParsePairsOfPairs(kept, encode);
    }
  }
}
