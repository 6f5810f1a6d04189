/**
 Reading the rule file line by line (get_line, src/policy.c:73-83).

 get_line calls `fgets_unlocked(buf, 128, f)`: one call consumes characters
 up to and including the first newline, but never more than 127 of them, and
 reports end of input when nothing is left. The buffer is then read as a C
 string (it ends at its first NUL) and cut at its first newline by
 `strchr` + `*ptr = 0`. A physical line longer than 127 characters therefore
 comes back as several successive chunks.

 The open file is a sequence of bytes (each a `Byte`, a character below 256)
 with a read position, so every count below is a count of bytes; read
 errors of the underlying stream are not part of this model.
 */
module ConfigText {
  import opened Common

  /** The size passed to fgets_unlocked; one call stores at most FGETS_SIZE - 1 characters. */
  const FGETS_SIZE: nat := 128
  const MAX_CHUNK: nat := FGETS_SIZE - 1

  /**
   The characters one fgets call with room for `room` characters consumes
   from `rest`: a prefix of `rest` that stops after the first newline, when
   `room` runs out, or at the end of input.
   */
  function Fgets(rest: seq<char>, room: nat): (c: seq<char>)
    ensures |c| <= room && |c| <= |rest| && c == rest[..|c|]
    ensures |c| == 0 <==> room == 0 || rest == []
    ensures forall i | 0 <= i < |c| - 1 :: c[i] != '\n'
    ensures |c| < |rest| && |c| < room ==> c[|c| - 1] == '\n'
    decreases room
  {
    if room == 0 || rest == [] then []
    else if rest[0] == '\n' then [rest[0]]
    else [rest[0]] + Fgets(rest[1..], room - 1)
  }

  /**
   The prefix of `s` before the first `stop` character: what a C string ends
   at (stop = NUL) or what `strchr` + `*ptr = 0` leave (stop = newline).
   */
  function UpTo(s: seq<char>, stop: char): (t: seq<char>)
    ensures |t| <= |s| && stop !in t && t == s[..|t|]
    ensures |t| < |s| ==> s[|t|] == stop
    ensures stop !in s ==> t == s
  {
    if s == [] then []
    else if s[0] == stop then []
    else [s[0]] + UpTo(s[1..], stop)
  }

  /** The string get_line returns for a chunk read by fgets. */
  function Line(chunk: seq<char>): (line: CString)
  {
    var cstr := UpTo(chunk, '\0');
    UpTo(cstr, '\n')
  }

  /** One get_line call on the unread input: the line (None at end of input) and what remains unread. */
  function NextLine(rest: seq<char>): (Option<CString>, seq<char>)
  {
    if rest == [] then (None, rest)
    else
      var c := Fgets(rest, MAX_CHUNK);
      (Some(Line(c)), rest[|c|..])
  }

  /** Every line successive get_line calls return, until the one that returns NULL. */
  function Lines(rest: seq<char>): seq<CString>
    decreases |rest|
  {
    match NextLine(rest)
    case (None, _) => []
    case (Some(line), more) => [line] + Lines(more)
  }

  /**
   get_line returns NULL exactly at end of input; otherwise it consumes one
   fgets chunk, non-empty, and the next call starts right after it.
   */
  lemma GetLineConsumesChunk(rest: seq<char>)
    ensures NextLine(rest).0.None? <==> rest == []
    ensures rest != [] ==>
            |NextLine(rest).1| < |rest| && rest == Fgets(rest, MAX_CHUNK) + NextLine(rest).1
  {
  }

  /** A returned line holds at most 127 characters and no newline. */
  lemma {:induction false} LineBounds(chunk: seq<char>)
    requires |chunk| <= MAX_CHUNK
    ensures |Line(chunk)| <= MAX_CHUNK && '\n' !in Line(chunk)
  {
  }

  /**
   Only the first newline is removed: for a chunk read by fgets without NUL
   characters, the line is the chunk itself or the chunk without its final
   newline.
   */
  lemma StripsOnlyFirstNewline(rest: seq<char>)
    requires rest != [] && '\0' !in Fgets(rest, MAX_CHUNK)
    ensures var c := Fgets(rest, MAX_CHUNK);
            c == Line(c) || c == Line(c) + ['\n']
  {
    var c := Fgets(rest, MAX_CHUNK);
    assert UpTo(c, '\0') == c;
    var l := Line(c);
    if |l| < |c| {
      assert c[|l|] == '\n';
      assert |l| == |c| - 1;
      assert c == l + ['\n'];
    }
  }

  /** Every line of the input is bounded by 127 characters and carries no newline. */
  lemma {:induction false} AllLinesBounded(rest: seq<char>)
    ensures forall k | 0 <= k < |Lines(rest)| :: |Lines(rest)[k]| <= MAX_CHUNK && '\n' !in Lines(rest)[k]
    decreases |rest|
  {
    if rest != [] {
      var c := Fgets(rest, MAX_CHUNK);
      LineBounds(c);
      AllLinesBounded(rest[|c|..]);
      assert Lines(rest) == [Line(c)] + Lines(rest[|c|..]);
    }
  }

  /**
   A physical line longer than 127 characters is split: the first get_line
   returns its first 127 characters and the next call starts right after them.
   */
  lemma LongLineSplits(rest: seq<char>)
    requires |rest| > MAX_CHUNK
    requires forall i | 0 <= i < MAX_CHUNK :: rest[i] != '\n' && rest[i] != '\0'
    ensures Lines(rest) == [rest[..MAX_CHUNK]] + Lines(rest[MAX_CHUNK..])
  {
    var c := Fgets(rest, MAX_CHUNK);
    assert |c| == MAX_CHUNK;
    assert c == rest[..MAX_CHUNK];
    assert UpTo(c, '\0') == c;
    assert UpTo(c, '\n') == c;
  }

  /** The open rule file: the text fgets reads from and how much of it is consumed. */
  class ConfigFile {
    const text: seq<Byte>
    var pos: nat

    ghost predicate Valid()
      reads this
    {
      pos <= |text|
    }

    /** What is still unread. */
    function Rest(): seq<char>
      reads this
      requires Valid()
    {
      text[pos..]
    }

    /** fdopen: a stream positioned at the start of the file. */
    constructor (text: seq<Byte>)
      ensures Valid() && this.text == text && pos == 0
    {
      this.text := text;
      pos := 0;
    }

    /** get_line: read one chunk and strip its newline; None stands for the NULL return. */
    method GetLine() returns (line: Option<CString>)
      requires Valid()
      modifies this
      ensures Valid()
      ensures (line, Rest()) == NextLine(old(Rest()))
    {
      if pos == |text| {
        return None;
      }
      var chunk := Fgets(text[pos..], MAX_CHUNK);
      line := Some(Line(chunk));
      pos := pos + |chunk|;
      assert text[pos..] == old(Rest())[|chunk|..];
    }
  }
}
