/**
 * The attribute parser of `generate_json`: the raw `Attributes` cell is split
 * on `;`, every piece must split on `:` into exactly two parts, and the result
 * is the gender entry followed by one trimmed entry per piece; one malformed
 * piece replaces the whole list by the raw cell.
 */
module Attributes {
  import opened Wrappers
  import opened Text

  /** One element of the `attributes` list of a document. */
  datatype AttrItem =
    | Entry(traitType: string, value: string)  // {"trait_type": ..., "value": ...}
    | Raw(text: string)                        // the unsplit cell, a bare JSON string

  /** `attribute.split(":")` unpacks into exactly two names. */
  predicate WellFormed(segment: string)
  {
    |Split(segment, ':')| == 2
  }

  /** The entry a well-formed segment contributes. */
  function EntryOf(segment: string): AttrItem
    requires WellFormed(segment)
  {
    var parts := Split(segment, ':');
    Entry(Strip(parts[0]), Strip(parts[1]))
  }

  /** A segment is well formed exactly when it holds exactly one colon. */
  lemma WellFormedIffOneColon(segment: string)
    ensures WellFormed(segment) <==> Count(segment, ':') == 1
  {
    SplitCount(segment, ':');
  }

  /** The entry of `left:right` is the pair of both sides, stripped. */
  lemma EntryOfPair(left: string, right: string)
    requires ':' !in left && ':' !in right
    ensures WellFormed(left + [':'] + right)
    ensures EntryOf(left + [':'] + right) == Entry(Strip(left), Strip(right))
  {
    SplitOnce(left, ':', right);
  }

  /**
   * The entries of all segments, in order, or None as soon as one segment is
   * malformed.
   */
  function ParseSegments(segments: seq<string>): Option<seq<AttrItem>>
  {
    if segments == [] then Some([])
    else
      match ParseSegments(segments[..|segments| - 1])
      case None => None
      case Some(entries) =>
        var last := segments[|segments| - 1];
        if WellFormed(last) then Some(entries + [EntryOf(last)]) else None
  }

  /**
   * The parse succeeds exactly when every segment is well formed, and then
   * holds one entry per segment, in segment order.
   */
  lemma {:induction false} ParseSegmentsCharacterized(segments: seq<string>)
    ensures ParseSegments(segments).Some? <==> forall k :: 0 <= k < |segments| ==> WellFormed(segments[k])
    ensures ParseSegments(segments).Some? ==> |ParseSegments(segments).value| == |segments|
    ensures ParseSegments(segments).Some? ==>
      forall k :: 0 <= k < |segments| ==> ParseSegments(segments).value[k] == EntryOf(segments[k])
  {
    if segments != [] {
      var front := segments[..|segments| - 1];
      ParseSegmentsCharacterized(front);
      assert forall k :: 0 <= k < |front| ==> front[k] == segments[k];
    }
  }

  /** The `attributes` list of the document for a row's `Attributes` and `Gender` cells. */
  function ParseAttributes(raw: string, gender: string): seq<AttrItem>
  {
    match ParseSegments(Split(raw, ';'))
    case Some(entries) => [Entry("gender", gender)] + entries
    case None => [Raw(raw)]
  }

  /**
   * The loop of `generate_json`: start with the gender entry, append one entry
   * per segment, and on the first malformed segment replace everything by the
   * raw cell and stop.
   */
  method GenerateAttributes(raw: string, gender: string) returns (attributes: seq<AttrItem>)
    ensures attributes == ParseAttributes(raw, gender)
  {
    var segments := Split(raw, ';');
    attributes := [Entry("gender", gender)];
    var i := 0;
    while i < |segments|
      invariant 0 <= i <= |segments|
      invariant forall k :: 0 <= k < i ==> WellFormed(segments[k])
      invariant |attributes| == i + 1 && attributes[0] == Entry("gender", gender)
      invariant forall k :: 0 <= k < i ==> attributes[k + 1] == EntryOf(segments[k])
    {
      var parts := Split(segments[i], ':');
      if |parts| != 2 {
        attributes := [Raw(raw)];
        break;
      }
      attributes := attributes + [Entry(Strip(parts[0]), Strip(parts[1]))];
      i := i + 1;
    }
    ParseSegmentsCharacterized(segments);
    if i == |segments| {
      var entries := ParseSegments(segments).value;
      assert attributes == [Entry("gender", gender)] + entries;
    }
  }

  /**
   * When every segment is well formed the list is the gender entry followed by
   * one entry per segment, in segment order, each the stripped sides of its
   * segment.
   */
  lemma ParsedEntries(raw: string, gender: string)
    requires forall k :: 0 <= k < |Split(raw, ';')| ==> WellFormed(Split(raw, ';')[k])
    ensures var r, segments := ParseAttributes(raw, gender), Split(raw, ';');
      && |r| == |segments| + 1
      && r[0] == Entry("gender", gender)
      && forall k :: 0 <= k < |segments| ==>
           r[k + 1] == EntryOf(segments[k])
                    == Entry(Strip(Split(segments[k], ':')[0]), Strip(Split(segments[k], ':')[1]))
  {
    ParseSegmentsCharacterized(Split(raw, ';'));
  }

  /**
   * The fallback is all or nothing: the list is the single raw cell exactly
   * when some segment is malformed, and then the gender entry and every entry
   * parsed before that segment are gone.
   */
  lemma FallbackIffMalformed(raw: string, gender: string)
    ensures ParseAttributes(raw, gender) == [Raw(raw)]
      <==> exists k :: 0 <= k < |Split(raw, ';')| && !WellFormed(Split(raw, ';')[k])
  {
    var segments := Split(raw, ';');
    var r := ParseAttributes(raw, gender);
    ParseSegmentsCharacterized(segments);
    if forall k :: 0 <= k < |segments| ==> WellFormed(segments[k]) {
      assert ParseSegments(segments).Some?;
      assert |r| == |segments| + 1;
      assert r != [Raw(raw)];
    } else {
      var k :| 0 <= k < |segments| && !WellFormed(segments[k]);
      assert ParseSegments(segments).None?;
      assert r == [Raw(raw)];
      assert ParseAttributes(raw, gender) == [Raw(raw)];
      assert exists j :: 0 <= j < |Split(raw, ';')| && !WellFormed(Split(raw, ';')[j]);
    }
  }

  /** An empty cell splits into one empty segment, which is malformed. */
  lemma EmptyCellFallsBack(gender: string)
    ensures ParseAttributes("", gender) == [Raw("")]
  {
    assert !WellFormed(Split("", ';')[0]);
    ParseSegmentsCharacterized(Split("", ';'));
  }

  /** A trailing `;` leaves an empty last segment, so the whole cell falls back. */
  lemma TrailingSemicolonFallsBack(raw: string, gender: string)
    requires raw != [] && raw[|raw| - 1] == ';'
    ensures ParseAttributes(raw, gender) == [Raw(raw)]
  {
    var front := raw[..|raw| - 1];
    assert raw == front + [';'] + "";
    SplitAround(front, ';', "");
    var segments := Split(raw, ';');
    assert segments[|segments| - 1] == "";
    assert !WellFormed(segments[|segments| - 1]);
    ParseSegmentsCharacterized(segments);
  }

  /**
   * Two `key:value` segments, as in `"color:blue; size:large"`: the gender
   * entry, then both pairs with their whitespace stripped.
   */
  lemma TwoPairs(key1: string, value1: string, key2: string, value2: string, gender: string)
    requires forall c :: c in [':', ';'] ==> c !in key1 && c !in value1 && c !in key2 && c !in value2
    ensures ParseAttributes(key1 + [':'] + value1 + [';'] + key2 + [':'] + value2, gender)
      == [Entry("gender", gender), Entry(Strip(key1), Strip(value1)), Entry(Strip(key2), Strip(value2))]
  {
    var first, second := key1 + [':'] + value1, key2 + [':'] + value2;
    assert ';' !in first && ';' !in second;
    assert key1 + [':'] + value1 + [';'] + key2 + [':'] + value2 == first + [';'] + second;
    SplitOnce(first, ';', second);
    EntryOfPair(key1, value1);
    EntryOfPair(key2, value2);
    var segments := [first, second];
    assert segments[0] == first && segments[1] == second;
    ParseSegmentsCharacterized(segments);
    assert ParseSegments(segments).value == [EntryOf(first), EntryOf(second)];
  }

  /**
   * Two segments whose first has no colon, as in `"color-blue;size:large"`:
   * the raw cell alone, whatever the second segment holds.
   */
  lemma FirstSegmentWithoutColon(first: string, second: string, gender: string)
    requires ':' !in first && ';' !in first && ';' !in second
    ensures ParseAttributes(first + [';'] + second, gender) == [Raw(first + [';'] + second)]
  {
    SplitOnce(first, ';', second);
    SplitWithoutSeparator(first, ':');
    var segments := [first, second];
    assert segments[0] == first && !WellFormed(segments[0]);
    ParseSegmentsCharacterized(segments);
  }
}
