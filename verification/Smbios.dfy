/** Strings and sizes of SMBIOS memory device entries (exporter/collectors/dimm.go). */
module Smbios {
  import opened Wrappers

  type Text = seq<byte>

  // ----- the string table -----

  /** The first position from `i` on that holds a zero, or the end. */
  function NextZero(data: seq<byte>, i: nat): (end: nat)
    requires i <= |data|
    ensures i <= end <= |data|
    ensures end < |data| ==> data[end] == 0
    ensures forall k :: i <= k < end ==> data[k] != 0
    decreases |data| - i
  {
    if i == |data| || data[i] == 0 then i else NextZero(data, i + 1)
  }

  function Strings(data: seq<byte>): seq<Text> {
    if data == [] || data[0] == 0 then []
    else
      var end := NextZero(data, 0);
      [data[..end]] + (if end + 1 >= |data| then [] else Strings(data[end + 1..]))
  }

  /** The loop of the code, which cuts one string after the other off the front. */
  method ParseStrings(data: seq<byte>) returns (result: seq<Text>)
    ensures result == Strings(data)
  {
    result := [];
    var rest := data;
    while |rest| > 0
      invariant result + Strings(rest) == Strings(data)
      decreases |rest|
    {
      if rest[0] == 0 { break; }
      var end := 0;
      while end < |rest| && rest[end] != 0
        invariant 0 <= end <= |rest|
        invariant NextZero(rest, end) == NextZero(rest, 0)
      {
        end := end + 1;
      }
      Regroup(result, rest[..end], if end + 1 >= |rest| then [] else Strings(rest[end + 1..]));
      result := result + [rest[..end]];
      if end + 1 >= |rest| {
        rest := [];
        break;
      }
      rest := rest[end + 1..];
    }
    assert result + [] == result;
  }

  lemma Regroup<T>(s: seq<T>, x: T, t: seq<T>)
    ensures s + ([x] + t) == (s + [x]) + t
  {
  }

  predicate IsString(s: Text) { s != [] && 0 !in s }

  /** The strings one after the other, each with its terminating zero. */
  function Joined(strings: seq<Text>): seq<byte> {
    if strings == [] then [] else strings[0] + [0] + Joined(strings[1..])
  }

  /** A string table as section 6.1.3 of DSP0134 lays it out: two zeros for an empty one. */
  function Encode(strings: seq<Text>): seq<byte> {
    if strings == [] then [0, 0] else Joined(strings) + [0]
  }

  /**
   * The bytes are a table of these strings: the joined strings, followed by a zero or by nothing,
   * or the joined strings without their very last zero.
   */
  ghost predicate IsTable(data: seq<byte>, strings: seq<Text>) {
    var joined := Joined(strings);
    || (joined <= data && (|data| == |joined| || data[|joined|] == 0))
    || data + [0] == joined
  }

  ghost predicate AllStrings(strings: seq<Text>) { forall i :: 0 <= i < |strings| ==> IsString(strings[i]) }

  lemma FirstString(s: Text, tail: seq<byte>)
    requires IsString(s)
    ensures NextZero(s + [0] + tail, 0) == |s| && NextZero(s, 0) == |s|
  {
    var data := s + [0] + tail;
    var end := NextZero(data, 0);
    assert forall k :: 0 <= k < |s| ==> data[k] == s[k] && s[k] in s;
    assert data[|s|] == 0;
  }

  /** What the parse returns are strings, and they are a table for the bytes. */
  lemma {:induction false} ParsedIsTable(data: seq<byte>)
    ensures AllStrings(Strings(data)) && IsTable(data, Strings(data))
    decreases |data|
  {
    if data != [] && data[0] != 0 {
      var end := NextZero(data, 0);
      var s := data[..end];
      assert forall k :: 0 <= k < |s| ==> s[k] != 0;
      if end + 1 >= |data| {
        assert Joined([s]) == s + [0] + Joined([]);
        assert end == |data| ==> data + [0] == s + [0];
      } else {
        var tail := data[end + 1..];
        ParsedIsTable(tail);
        assert data == s + [0] + tail;
        PrependString(s, tail, Strings(tail));
      }
    }
  }

  lemma PrependString(s: Text, tail: seq<byte>, strings: seq<Text>)
    requires tail != []
    ensures IsTable(s + [0] + tail, [s] + strings) <==> IsTable(tail, strings)
  {
    var front, joined, all, data := s + [0], Joined(strings), [s] + strings, s + [0] + tail;
    assert all[0] == s && all[1..] == strings;
    assert Joined(all) == front + joined;
    assert data[|front|..] == tail && (front + joined)[|front|..] == joined;
    assert joined <= tail <==> front + joined <= data by {
      if joined <= tail { assert data == front + joined + tail[|joined|..]; }
      if front + joined <= data { assert data[|front|..][..|joined|] == (front + joined)[|front|..]; }
    }
    assert data + [0] == front + (tail + [0]);
    assert data + [0] == front + joined <==> tail + [0] == joined by {
      if data + [0] == front + joined { assert (data + [0])[|front|..] == tail + [0]; }
    }
  }

  lemma StringsCut(s: Text, tail: seq<byte>)
    requires IsString(s)
    ensures Strings(s) == [s]
    ensures Strings(s + [0] + tail) == [s] + (if tail == [] then [] else Strings(tail))
  {
    FirstString(s, tail);
    var data := s + [0] + tail;
    assert s[0] in s;
    assert data[0] == s[0] && data[..|s|] == s && data[|s| + 1..] == tail && s[..|s|] == s;
  }

  /** There is only one such list of strings. */
  lemma {:induction false} TableIsParsed(data: seq<byte>, strings: seq<Text>)
    requires AllStrings(strings) && IsTable(data, strings)
    ensures strings == Strings(data)
  {
    if strings != [] {
      var s, others := strings[0], strings[1..];
      assert strings == [s] + others;
      if data == s {
        StringsCut(s, []);
        assert s + [0] == data + [0];
        JoinedLength(others);
        assert |Joined(strings)| == |s| + 1 + |Joined(others)|;
      } else {
        CutFirst(data, strings);
        var tail := data[|s| + 1..];
        StringsCut(s, tail);
        if tail == [] {
          NothingLeft(s, others);
        } else {
          PrependString(s, tail, others);
          TableIsParsed(tail, others);
        }
      }
    }
  }

  lemma JoinedLength(strings: seq<Text>)
    requires AllStrings(strings)
    ensures |Joined(strings)| >= 2 * |strings|
  {
    if strings != [] {
      JoinedLength(strings[1..]);
      assert IsString(strings[0]);
    }
  }

  lemma CutFirst(data: seq<byte>, strings: seq<Text>)
    requires AllStrings(strings) && IsTable(data, strings) && strings != [] && data != strings[0]
    ensures |data| > |strings[0]| && data == strings[0] + [0] + data[|strings[0]| + 1..]
  {
    var s, joined := strings[0], Joined(strings);
    assert joined == s + [0] + Joined(strings[1..]);
    if data + [0] == joined {
      assert data == joined[..|joined| - 1];
      assert data[..|s|] == joined[..|s|] == s;
      assert |data| != |s|;
      assert data[|s|] == joined[|s|];
    } else {
      assert data[..|s|] == joined[..|s|] == s;
      assert data[|s|] == joined[|s|] == 0;
    }
  }

  lemma NothingLeft(s: Text, others: seq<Text>)
    requires AllStrings(others) && IsTable(s + [0], [s] + others)
    ensures others == []
  {
    var all := [s] + others;
    assert all[0] == s && all[1..] == others;
    assert Joined(all) == s + [0] + Joined(others);
    JoinedLength(others);
  }

  /**
   * The parse of any bytes, exactly: it returns the one list of nonempty zero-free strings
   * whose table the bytes begin with, up to a closing zero or to the end.
   */
  lemma ParseMeaning(data: seq<byte>, strings: seq<Text>)
    ensures strings == Strings(data) <==> AllStrings(strings) && IsTable(data, strings)
  {
    ParsedIsTable(data);
    if AllStrings(strings) && IsTable(data, strings) { TableIsParsed(data, strings); }
  }

  /** Encoding and parsing give the strings back, whatever structure follows the table. */
  lemma TableRoundTrip(strings: seq<Text>, next: seq<byte>)
    requires AllStrings(strings)
    ensures Strings(Encode(strings) + next) == strings
  {
    var data, joined := Encode(strings) + next, Joined(strings);
    assert joined <= data && data[|joined|] == 0;
    ParseMeaning(data, strings);
  }

  /** Indices start at 1; 0 and anything past the table mean "not specified". */
  function GetString(strings: seq<Text>, index: nat): Text {
    if index < 1 || index > |strings| then [] else strings[index - 1]
  }

  /** In a table read back, an index names its string, and every other index reads as the empty text. */
  lemma IndexRoundTrip(strings: seq<Text>, next: seq<byte>, index: nat)
    requires AllStrings(strings)
    ensures var got := GetString(Strings(Encode(strings) + next), index);
            && (got != [] <==> 1 <= index <= |strings|)
            && (1 <= index <= |strings| ==> got == strings[index - 1])
  {
    TableRoundTrip(strings, next);
  }

  // ----- the size field -----

  /** The size in MB that the code reads from the size word, and the extended size if the entry is long enough. */
  function SizeMB(raw: nat, extended: nat, length: nat): nat
    requires raw < 0x1_0000 && extended < 0x1_0000_0000
  {
    if raw == 0xFFFF then (if length >= 0x20 then extended % 0x8000_0000 else 0)
    else if raw >= 0x8000 then raw % 0x8000 / 1024
    else raw
  }

  datatype Size = Unknown | Megabytes(value: nat)

  /** The size word as section 7.18 of DSP0134 defines it, where 0x7FFF announces an extended size. */
  function SizeByStandard(raw: nat, extended: nat): Size
    requires raw < 0x1_0000 && extended < 0x1_0000_0000
  {
    if raw == 0xFFFF then Unknown
    else if raw == 0x7FFF then Megabytes(extended % 0x8000_0000)
    else if raw >= 0x8000 then Megabytes(raw % 0x8000 / 1024)
    else Megabytes(raw)
  }

  function Shown(size: Size): nat { if size.Unknown? then 0 else size.value }

  /**
   * The code looks at the extended size behind 0xFFFF instead of 0x7FFF. What it shows is what the standard says,
   * with 0 for an unknown size, exactly when neither marker is used with an extended size that tells them apart.
   */
  lemma SizeAgreesExactly(raw: nat, extended: nat, length: nat)
    requires raw < 0x1_0000 && extended < 0x1_0000_0000
    ensures SizeMB(raw, extended, length) == Shown(SizeByStandard(raw, extended))
            <==> && (raw == 0x7FFF ==> extended % 0x8000_0000 == 0x7FFF)
                 && (raw == 0xFFFF && length >= 0x20 ==> extended % 0x8000_0000 == 0)
  {
  }

  /** The word holds megabytes, or with bit 15 set kilobytes, rounded down; bit 31 of the extended size is cleared. */
  lemma SizeMeaning(raw: nat, extended: nat, length: nat)
    requires raw < 0x1_0000 && extended < 0x1_0000_0000
    ensures var size := SizeMB(raw, extended, length);
            && (raw < 0x8000 ==> size == raw)
            && (0x8000 <= raw < 0xFFFF ==> 1024 * size <= raw - 0x8000 < 1024 * (size + 1))
            && (raw == 0xFFFF && length >= 0x20 ==>
                  size < 0x8000_0000 && (extended == size || extended == size + 0x8000_0000))
            && (raw == 0xFFFF && length < 0x20 ==> size == 0)
  {
  }
}
