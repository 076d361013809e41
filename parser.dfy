/** The raw-body parser of the create handler (`parseAttendanceData`). */
module Parser {
  import opened Js

  const Comma: char := ','

  /** JavaScript `s.split(sep)` for a one-character separator: the pieces between separators,
      in order; the empty string splits into one empty piece. */
  function Split(s: string, sep: char): (parts: seq<string>)
    ensures |parts| >= 1
    ensures forall i :: 0 <= i < |parts| ==> sep !in parts[i]
    ensures |parts| == 1 <==> sep !in s
    decreases |s|
  {
    if |s| == 0 then [""]
    else
      var rest := Split(s[1..], sep);
      if s[0] == sep then [""] + rest
      else [[s[0]] + rest[0]] + rest[1..]
  }

  /** The pieces glued back together with the separator (JavaScript `parts.join(sep)`). */
  function Join(parts: seq<string>, sep: char): string
    requires |parts| >= 1
    decreases |parts|
  {
    if |parts| == 1 then parts[0] else parts[0] + [sep] + Join(parts[1..], sep)
  }

  /** Splitting loses nothing: joining the pieces gives back the input. */
  lemma {:induction false} JoinSplit(s: string, sep: char)
    ensures Join(Split(s, sep), sep) == s
    decreases |s|
  {
    if |s| > 0 {
      var rest := Split(s[1..], sep);
      JoinSplit(s[1..], sep);
      assert Join(rest, sep) == s[1..];
      if s[0] == sep {
        var parts := [""] + rest;
        assert Split(s, sep) == parts;
        assert parts[1..] == rest;
        assert Join(parts, sep) == "" + [sep] + Join(rest, sep);
        assert s == [s[0]] + s[1..];
      } else {
        var parts := [[s[0]] + rest[0]] + rest[1..];
        assert Split(s, sep) == parts;
        if |rest| == 1 {
          assert Join(parts, sep) == [s[0]] + rest[0];
          assert s == [s[0]] + s[1..];
        } else {
          var tail := Join(rest[1..], sep);
          calc {
            Join(parts, sep);
            { assert parts[1..] == rest[1..]; }
            [s[0]] + rest[0] + [sep] + tail;
            { AppendAssoc([s[0]] + rest[0], [sep], tail);
              AppendAssoc([s[0]], rest[0], [sep] + tail); }
            [s[0]] + (rest[0] + ([sep] + tail));
            { AppendAssoc(rest[0], [sep], tail); }
            [s[0]] + Join(rest, sep);
            { assert s == [s[0]] + s[1..]; }
            s;
          }
        }
      }
    }
  }

  /** The result of `parseAttendanceData`: the timestamp is absent when the body has no comma. */
  datatype Parsed = Parsed(studentId: string, timestamp: Option<string>)

  /** `parseAttendanceData`: the first two comma-separated pieces of the body. The student id is
      the text before the first comma; the timestamp is the text between the first and the
      second comma (or the end), and is absent when there is no comma; anything from a second
      comma on is dropped. */
  function ParseAttendanceData(data: string): (p: Parsed)
    ensures Comma !in p.studentId
    ensures Comma !in data <==> p.timestamp.None?
    ensures Comma !in data ==> p.studentId == data
    ensures p.timestamp.Some? ==>
      var k := |p.studentId|;
      var ts := p.timestamp.value;
      var end := k + 1 + |ts|;
      && Comma !in ts
      && end <= |data|
      && data[..k] == p.studentId
      && data[k] == Comma
      && data[k + 1..end] == ts
      && (end == |data| || data[end] == Comma)
  {
    var parts := Split(data, Comma);
    JoinSplit(data, Comma);
    if |parts| >= 2 then
      assert data == parts[0] + [Comma] + Join(parts[1..], Comma);
      PrefixOfJoin(parts[1..], Comma);
      Parsed(parts[0], Some(parts[1]))
    else
      Parsed(parts[0], None)
  }

  /** The first piece is a prefix of the joined text, followed by the separator or the end. */
  lemma PrefixOfJoin(parts: seq<string>, sep: char)
    requires |parts| >= 1
    ensures |parts[0]| <= |Join(parts, sep)|
    ensures Join(parts, sep)[..|parts[0]|] == parts[0]
    ensures |parts| == 1 <==> |parts[0]| == |Join(parts, sep)|
    ensures |parts| > 1 ==> Join(parts, sep)[|parts[0]|] == sep
  {
  }

  /** The body format clients are expected to send, "<studentId>,<timestamp>", parses back to
      its two parts; a third or later field after another comma is discarded. */
  lemma ParseWellFormed(studentId: string, timestamp: string, rest: string)
    requires Comma !in studentId && Comma !in timestamp
    requires rest == [] || rest[0] == Comma
    ensures ParseAttendanceData(studentId + [Comma] + timestamp + rest)
         == Parsed(studentId, Some(timestamp))
  {
    var data := studentId + [Comma] + timestamp + rest;
    assert data[|studentId|] == Comma;
    assert data[|studentId| + 1..|studentId| + 1 + |timestamp|] == timestamp;
  }
}
