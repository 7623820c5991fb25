/**
 * `StrReader`: a cursor over one attribute value that yields the parts between separator characters.
 * The split enumerator it wraps is modelled by the position where the next part starts: it can move
 * on while that position is inside the text, so a trailing empty part is never produced.
 */
module StrRead {
  import XmlText

  /** The parts of `s` between occurrences of `separator`, without a trailing empty part. */
  function Segments(s: string, separator: char): (r: seq<string>)
    ensures s == [] <==> r == []
    ensures forall k :: 0 <= k < |r| ==> forall i :: 0 <= i < |r[k]| ==> r[k][i] != separator
    decreases |s|
  {
    if s == [] then []
    else
      var i := XmlText.IndexOfAny(s, {separator});
      if i < 0 then [s] else [s[..i]] + Segments(s[i + 1..], separator)
  }

  /** The parts joined with the separator between them (what `StrWriter` produces). */
  function Join(parts: seq<string>, separator: char): string {
    if parts == [] then []
    else if |parts| == 1 then parts[0]
    else parts[0] + [separator] + Join(parts[1..], separator)
  }

  /** Splitting a part followed by the separator yields that part first. */
  lemma SegmentsCons(x: string, separator: char, rest: string)
    requires forall i :: 0 <= i < |x| ==> x[i] != separator
    ensures Segments(x + [separator] + rest, separator) == [x] + Segments(rest, separator)
  {
    var s := x + [separator] + rest;
    var i := XmlText.IndexOfAny(s, {separator});
    assert s[|x|] in {separator};
    assert i == |x|;
    assert s[..i] == x;
    assert s[i + 1..] == rest;
  }

  /** A non-empty text without the separator is one part. */
  lemma SegmentsWhole(x: string, separator: char)
    requires x != [] && forall i :: 0 <= i < |x| ==> x[i] != separator
    ensures Segments(x, separator) == [x]
  {
    assert XmlText.IndexOfAny(x, {separator}) == -1;
  }

  /**
   * Splitting what was joined gives the parts back, as long as no part holds the separator and the
   * last part is not empty (the one part a split cannot produce).
   */
  lemma {:induction false} SegmentsOfJoin(parts: seq<string>, separator: char)
    requires forall k :: 0 <= k < |parts| ==> forall i :: 0 <= i < |parts[k]| ==> parts[k][i] != separator
    requires parts == [] || parts[|parts| - 1] != []
    ensures Segments(Join(parts, separator), separator) == parts
    decreases |parts|
  {
    if |parts| == 1 {
      SegmentsWhole(parts[0], separator);
    } else if |parts| > 1 {
      SegmentsOfJoin(parts[1..], separator);
      SegmentsCons(parts[0], separator, Join(parts[1..], separator));
      assert [parts[0]] + parts[1..] == parts;
    }
  }

  /** Joining a first part with further parts puts one separator between them. */
  lemma JoinCons(x: string, tail: seq<string>, separator: char, suffix: string)
    requires tail != []
    ensures Join([x] + tail, separator) + suffix == x + [separator] + (Join(tail, separator) + suffix)
  {
    assert ([x] + tail)[1..] == tail;
  }

  /** Joining the parts gives the text back, less a trailing separator. */
  lemma {:induction false} JoinOfSegments(s: string, separator: char)
    ensures Join(Segments(s, separator), separator)
         + (if s != [] && s[|s| - 1] == separator then [separator] else []) == s
    decreases |s|, 1
  {
    if s != [] {
      var i := XmlText.IndexOfAny(s, {separator});
      if i >= 0 {
        JoinOfSegmentsAt(s, separator, i);
      }
    }
  }

  /** The case of `JoinOfSegments` where the first separator is at `i`. */
  lemma {:induction false} JoinOfSegmentsAt(s: string, separator: char, i: nat)
    requires i < |s| && s[i] == separator && forall k :: 0 <= k < i ==> s[k] != separator
    ensures Join(Segments(s, separator), separator)
         + (if s[|s| - 1] == separator then [separator] else []) == s
    decreases |s|, 0
  {
    var x, rest := s[..i], s[i + 1..];
    assert s == x + [separator] + rest;
    SegmentsCons(x, separator, rest);
    var tail := Segments(rest, separator);
    if rest == [] {
      assert Join([x] + tail, separator) == x;
    } else {
      JoinOfSegments(rest, separator);
      var suffix: string := if s[|s| - 1] == separator then [separator] else [];
      assert rest[|rest| - 1] == s[|s| - 1];
      JoinCons(x, tail, separator, suffix);
    }
  }

  class StrReader {
    const str: string
    const separator: char
    /** Where the enumerator's next part starts. */
    var position: nat

    ghost predicate Valid()
      reads this
    {
      position <= |str|
    }

    /** The parts still to be read. */
    ghost function Remaining(): seq<string>
      reads this
      requires Valid()
    {
      Segments(str[position..], separator)
    }

    constructor (str: string, separator: char)
      ensures Valid() && this.str == str && this.separator == separator
      ensures Remaining() == Segments(str, separator)
    {
      this.str := str;
      this.separator := separator;
      position := 0;
    }

    /** `enumerator.CanMoveNext()`. */
    function HasRemaining(): (r: bool)
      reads this
      requires Valid()
      ensures r <==> Remaining() != []
    {
      position < |str|
    }

    /** The next part, as a slice of the text; the empty span once every part has been read. */
    method GetString() returns (segment: string)
      requires Valid()
      modifies this
      ensures Valid()
      ensures old(Remaining()) == [] ==> segment == [] && position == old(position)
      ensures old(Remaining()) != [] ==>
        segment == old(Remaining())[0] && Remaining() == old(Remaining())[1..] && position > old(position)
      ensures exists i, j :: 0 <= i <= j <= |str| && segment == str[i..j]
    {
      if position >= |str| {
        assert str[position..position] == [];
        return [];
      }
      var start := position;
      var end := start;
      while end < |str| && str[end] != separator
        invariant start <= end <= |str|
        invariant forall k :: start <= k < end ==> str[k] != separator
      {
        end := end + 1;
      }
      segment := str[start..end];
      position := if end < |str| then end + 1 else |str|;
      NextSegment(str, separator, start, end);
    }

    /** Every part, in order; afterwards nothing remains. */
    method ReadToEnd() returns (parts: seq<string>)
      requires Valid()
      modifies this
      ensures Valid()
      ensures parts == old(Remaining())
      ensures !HasRemaining()
    {
      parts := [];
      while HasRemaining()
        invariant Valid()
        invariant parts + Remaining() == old(Remaining())
        decreases |str| - position
      {
        ghost var before := Remaining();
        var span := GetString();
        ShiftFirst(parts, before);
        parts := parts + [span];
      }
      assert Remaining() == [];
      assert parts + [] == parts;
    }
  }

  /** Moving the first remaining part over to the parts read keeps their concatenation. */
  lemma ShiftFirst(done: seq<string>, rest: seq<string>)
    requires rest != []
    ensures done + [rest[0]] + rest[1..] == done + rest
  {
    assert [rest[0]] + rest[1..] == rest;
  }

  /** The scan in `GetString` finds the next part: up to the next separator, or to the end. */
  lemma NextSegment(str: string, separator: char, start: nat, end: nat)
    requires start < |str| && start <= end <= |str|
    requires forall k :: start <= k < end ==> str[k] != separator
    requires end < |str| ==> str[end] == separator
    ensures var rest := Segments(str[start..], separator);
      rest != [] && rest[0] == str[start..end]
      && rest[1..] == Segments(str[if end < |str| then end + 1 else |str|..], separator)
  {
    var x := str[start..end];
    if end < |str| {
      assert str[start..] == x + [separator] + str[end + 1..];
      SegmentsCons(x, separator, str[end + 1..]);
    } else {
      assert str[start..] == x;
      SegmentsWhole(x, separator);
      assert str[|str|..] == [];
    }
  }
}
