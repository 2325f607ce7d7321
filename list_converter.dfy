/**
 The `list` path converter: one URL path segment of the form
 `name+name2+name3` stands for the list of names it separates.

 Decoding splits the segment on `+`. Encoding branches on the kind of
 value it is given: a list is encoded item by item and joined with `+`;
 a single string is only encoded, neither split nor joined. The per-item
 encoding belongs to the routing library's base converter and is a
 parameter `enc` here.
 */
module ListConverter {
  import opened Strings

  /** The separator between list items in a path segment. */
  const Plus: char := '+'

  /**
   What `to_url` may be given: a plain string, or any other sequence of
   strings (a list, a tuple, a set's iteration, ...).
   */
  datatype UrlValue = Single(value: string) | Many(items: seq<string>)

  /** `to_python`: the segment split on `+`, empty pieces kept. */
  function ToPython(value: string): (r: seq<string>)
    ensures |r| == Count(value, Plus) + 1
    ensures DelimiterFree(r, Plus)
    ensures Join(r, Plus) == value
  {
    SplitCount(value, Plus);
    SplitDelimiterFree(value, Plus);
    JoinSplit(value, Plus);
    Split(value, Plus)
  }

  /** The items each passed through the base encoding, in order. */
  function EncodeEach(enc: string -> string, items: seq<string>): (r: seq<string>)
    ensures |r| == |items|
    ensures forall k :: 0 <= k < |items| ==> r[k] == enc(items[k])
  {
    seq(|items|, k requires 0 <= k < |items| => enc(items[k]))
  }

  /**
   `to_url`: encode a single string as it is, or a list item by item joined
   with `+`. A list's segment starts with its first encoded item, holds one
   `+` per pair of neighbours when no encoded item holds one, and then
   decodes to exactly the encoded items.
   */
  function ToUrl(enc: string -> string, values: UrlValue): (r: string)
    ensures values.Many? && |values.items| >= 1 ==> enc(values.items[0]) <= r
    ensures values.Many? && |values.items| >= 1 && DelimiterFree(EncodeEach(enc, values.items), Plus)
      ==> Count(r, Plus) == |values.items| - 1 && ToPython(r) == EncodeEach(enc, values.items)
  {
    match values
    case Single(v) => enc(v)
    case Many(items) =>
      var encoded := EncodeEach(enc, items);
      assert |items| >= 1 && DelimiterFree(encoded, Plus) ==>
        Count(Join(encoded, Plus), Plus) == |items| - 1 && Split(Join(encoded, Plus), Plus) == encoded
      by {
        if |items| >= 1 && DelimiterFree(encoded, Plus) {
          JoinCount(encoded, Plus);
          SplitJoin(encoded, Plus);
        }
      }
      Join(encoded, Plus)
  }

  /** The empty list encodes to the empty segment, which decodes to one empty item. */
  lemma EmptyListEncoding(enc: string -> string)
    ensures ToUrl(enc, Many([])) == ""
    ensures ToPython(ToUrl(enc, Many([]))) == [""]
  {
  }

  /**
   Round trip from lists: a non-empty list of `+`-free items that the
   encoding leaves unchanged decodes back to itself.
   */
  lemma ListRoundTrip(enc: string -> string, items: seq<string>)
    requires |items| >= 1
    requires DelimiterFree(items, Plus)
    requires forall k :: 0 <= k < |items| ==> enc(items[k]) == items[k]
    ensures ToPython(ToUrl(enc, Many(items))) == items
  {
    assert EncodeEach(enc, items) == items;
  }

  /**
   Round trip from segments: when the encoding leaves each decoded piece
   unchanged, the segment re-encodes to itself after decoding.
   */
  lemma SegmentRoundTrip(enc: string -> string, segment: string)
    requires forall k :: 0 <= k < |ToPython(segment)| ==> enc(ToPython(segment)[k]) == ToPython(segment)[k]
    ensures ToUrl(enc, Many(ToPython(segment))) == segment
  {
    assert EncodeEach(enc, ToPython(segment)) == ToPython(segment);
  }

  /** A single string encodes exactly as the one-item list holding it. */
  lemma SingleIsOneItemList(enc: string -> string, v: string)
    ensures ToUrl(enc, Single(v)) == ToUrl(enc, Many([v])) == enc(v)
  {
  }

  /** A Python string iterated as a sequence: its characters, one per item. */
  function Characters(v: string): (r: seq<string>)
  {
    seq(|v|, k requires 0 <= k < |v| => [v[k]])
  }

  lemma {:induction false} JoinCharactersLength(v: string, d: char)
    requires |v| >= 1
    ensures |Join(Characters(v), d)| == 2 * |v| - 1
    decreases |v|
  {
    if |v| > 1 {
      assert Characters(v)[1..] == Characters(v[1..]);
      JoinCharactersLength(v[1..], d);
    }
  }

  /**
   Why `to_url` tests for a string first: a string of two or more
   characters that the encoding keeps, if it were iterated like a list,
   would come out with a `+` between its characters instead of unchanged.
   */
  lemma StringNotIteratedByCharacter(enc: string -> string, v: string)
    requires |v| >= 2 && enc(v) == v
    requires forall k :: 0 <= k < |v| ==> enc([v[k]]) == [v[k]]
    ensures ToUrl(enc, Single(v)) == v
    ensures ToUrl(enc, Many(Characters(v))) != v
  {
    var chars := Characters(v);
    assert EncodeEach(enc, chars) == chars;
    JoinCharactersLength(v, Plus);
  }

  /** Worked decoding examples: pieces in order, empty ones kept. */
  lemma DecodeExamples()
    ensures ToPython("a+b+c") == ["a", "b", "c"]
    ensures ToPython("") == [""]
    ensures ToPython("a++") == ["a", "", ""]
  {
    var abc: seq<string> := ["a", "b", "c"];
    assert DelimiterFree(abc, Plus);
    assert Join(abc, Plus) == "a+b+c" by {
      assert abc[1..] == ["b", "c"];
      assert abc[1..][1..] == ["c"];
    }
    SplitJoin(abc, Plus);
    var aee: seq<string> := ["a", "", ""];
    assert DelimiterFree(aee, Plus);
    assert Join(aee, Plus) == "a++" by {
      assert aee[1..] == ["", ""];
      assert aee[1..][1..] == [""];
    }
    SplitJoin(aee, Plus);
  }

  /** Worked encoding examples under the identity encoding. */
  lemma EncodeExamples()
    ensures ToUrl(s => s, Many(["a", "b"])) == "a+b"
    ensures ToUrl(s => s, Single("solo")) == "solo"
  {
    var ab: seq<string> := ["a", "b"];
    assert EncodeEach(s => s, ab) == ab;
    assert ab[1..] == ["b"];
  }
}
