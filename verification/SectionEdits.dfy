/**
 * Replacing the body of a section (src/obsidian_mcp/tools/write.py:197-222, mode "replace"), on the lines of the
 * note. The white space between the hashes and the title may run over line ends, so a heading can take
 * several lines.
 */
module SectionEdits {
  import opened Text

  type Lines = seq<string>

  // ---------------------------------------------------------------------------------------
  // Headings

  predicate AllSpace(s: string, space: Space) {
    forall i :: 0 <= i < |s| ==> space(s[i])
  }

  /** The number of hashes a line starts with. */
  function Hashes(line: string): (n: nat)
    ensures n <= |line|
    ensures forall i :: 0 <= i < n ==> line[i] == '#'
    ensures n < |line| ==> line[n] != '#'
  {
    if line != "" && line[0] == '#' then
      assert forall i :: 1 <= i < |line| ==> line[i] == line[1..][i - 1];
      1 + Hashes(line[1..])
    else 0
  }

  /** Between one and six hashes, white space, and the title up to trailing blanks. */
  ghost predicate InlineHeading(line: string, title: string, space: Space) {
    var level := Hashes(line);
    && 1 <= level <= 6
    && exists j :: level < j <= |line| && AllSpace(line[level..j], space) && TextThenBlanks(line[j..], title)
  }

  /** White space, and the title up to trailing blanks. */
  ghost predicate TitleLine(line: string, title: string, space: Space) {
    exists j :: 0 <= j <= |line| && AllSpace(line[..j], space) && TextThenBlanks(line[j..], title)
  }

  predicate BareHashes(line: string, space: Space) {
    1 <= Hashes(line) <= 6 && AllSpace(line[Hashes(line)..], space)
  }

  /** The first line at or after `i` that is not all white space. */
  function NextInk(lines: Lines, i: nat, space: Space): (n: nat)
    requires i <= |lines|
    ensures i <= n <= |lines|
    ensures n < |lines| ==> !AllSpace(lines[n], space)
    ensures forall k :: i <= k < n ==> AllSpace(lines[k], space)
    decreases |lines| - i
  {
    if i == |lines| || !AllSpace(lines[i], space) then i else NextInk(lines, i + 1, space)
  }

  /** A title as `\s+title` pins it to one place: one line with something visible in it. */
  predicate Title(title: string, space: Space) {
    !AllSpace(title, space) && '\n' !in title
  }

  /** Where a heading with this title that starts in line `a` ends. */
  ghost function HeadingEnd(lines: Lines, a: nat, title: string, space: Space): (r: Option<nat>)
    requires a < |lines|
    ensures r.Some? ==> a <= r.value < |lines| && 1 <= Hashes(lines[a]) <= 6
  {
    if InlineHeading(lines[a], title, space) then Some(a)
    else if !BareHashes(lines[a], space) then None
    else
      var b := NextInk(lines, a + 1, space);
      if b < |lines| && TitleLine(lines[b], title, space) then Some(b) else None
  }

  /** The first heading with this title, at or after line `i`. */
  ghost function FirstHeading(lines: Lines, i: nat, title: string, space: Space): (r: Option<nat>)
    requires i <= |lines|
    ensures r.Some? ==> i <= r.value < |lines| && HeadingEnd(lines, r.value, title, space).Some?
    ensures r.Some? ==> forall k :: i <= k < r.value ==> HeadingEnd(lines, k, title, space).None?
    ensures r.None? ==> forall k :: i <= k < |lines| ==> HeadingEnd(lines, k, title, space).None?
    decreases |lines| - i
  {
    if i == |lines| then None
    else if HeadingEnd(lines, i, title, space).Some? then Some(i)
    else FirstHeading(lines, i + 1, title, space)
  }

  /** A line that ends a section of this level; hashes alone count when a newline follows them. */
  predicate Ends(line: string, level: nat, newline: bool, space: Space) {
    var n := Hashes(line);
    1 <= n <= level && if n == |line| then newline else space(line[n])
  }

  /** The pattern `^#{1,level}\s` at the start of a line. */
  ghost predicate EndPattern(line: string, level: nat, newline: bool, space: Space) {
    exists n: nat :: 1 <= n <= level && HashesAndSpace(line, n, newline, space)
  }

  ghost predicate HashesAndSpace(line: string, n: nat, newline: bool, space: Space) {
    && n <= |line| && (forall i :: 0 <= i < n ==> line[i] == '#')
    && if n == |line| then newline else space(line[n])
  }

  /** A heading at or above the level ends the section, and no deeper one does. */
  lemma EndsIsPattern(line: string, level: nat, newline: bool, space: Space)
    requires !space('#')
    ensures Ends(line, level, newline, space) <==> EndPattern(line, level, newline, space)
    ensures |line| > level && (forall i :: 0 <= i <= level ==> line[i] == '#') ==> !Ends(line, level, newline, space)
  {
    if EndPattern(line, level, newline, space) {
      var n: nat :| 1 <= n <= level && HashesAndSpace(line, n, newline, space);
      assert n == Hashes(line);
    }
    if Ends(line, level, newline, space) {
      assert HashesAndSpace(line, Hashes(line), newline, space);
    }
  }

  /** The first line at or after `i` that ends a section of this level. */
  function BodyEnd(lines: Lines, i: nat, level: nat, space: Space): (e: nat)
    requires i <= |lines|
    ensures i <= e <= |lines|
    ensures forall k :: i <= k < e ==> !Ends(lines[k], level, k + 1 < |lines|, space)
    ensures e < |lines| ==> Ends(lines[e], level, e + 1 < |lines|, space)
    decreases |lines| - i
  {
    if i == |lines| || Ends(lines[i], level, i + 1 < |lines|, space) then i else BodyEnd(lines, i + 1, level, space)
  }

  /** First and last line of the heading, and the line that ends the section. */
  datatype Bounds = Bounds(first: nat, last: nat, end: nat)

  /** `_find_section_bounds`. */
  ghost function FindSection(lines: Lines, title: string, space: Space): (r: Option<Bounds>)
    ensures r.Some? ==> r.value.first <= r.value.last < r.value.end <= |lines|
  {
    match FirstHeading(lines, 0, title, space)
    case None => None
    case Some(a) =>
      var b := HeadingEnd(lines, a, title, space).value;
      Some(Bounds(a, b, BodyEnd(lines, b + 1, Hashes(lines[a]), space)))
  }

  /**
   * The section reaches from the heading, which starts with as many hashes as the section's level and ends
   * with the title, at most blank lines in between, down to the first line that the pattern of that level
   * matches.
   */
  lemma SectionIsPattern(lines: Lines, title: string, space: Space)
    requires !space('#') && FindSection(lines, title, space).Some?
    ensures var s := FindSection(lines, title, space).value;
            && (exists j :: 0 <= j <= |lines[s.last]| && TextThenBlanks(lines[s.last][j..], title))
            && (forall k :: s.first < k < s.last ==> AllSpace(lines[k], space))
            && exists level: nat ::
              && 1 <= level <= 6 && level <= |lines[s.first]|
              && (forall i :: 0 <= i < level ==> lines[s.first][i] == '#')
              && (level < |lines[s.first]| ==> space(lines[s.first][level]))
              && (forall k :: s.last < k < s.end ==> !EndPattern(lines[k], level, k + 1 < |lines|, space))
              && (s.end < |lines| ==> EndPattern(lines[s.end], level, s.end + 1 < |lines|, space))
  {
    hide Ends, EndPattern;
    var s := FindSection(lines, title, space).value;
    var level := Hashes(lines[s.first]);
    forall k | 0 <= k < |lines|
      ensures Ends(lines[k], level, k + 1 < |lines|, space) <==> EndPattern(lines[k], level, k + 1 < |lines|, space)
    {
      EndsIsPattern(lines[k], level, k + 1 < |lines|, space);
    }
    HashesThenSpace(lines, s.first, title, space);
  }

  lemma HashesThenSpace(lines: Lines, a: nat, title: string, space: Space)
    requires a < |lines| && HeadingEnd(lines, a, title, space).Some?
    ensures Hashes(lines[a]) < |lines[a]| ==> space(lines[a][Hashes(lines[a])])
    ensures var last := lines[HeadingEnd(lines, a, title, space).value];
            exists j :: 0 <= j <= |last| && TextThenBlanks(last[j..], title)
  {
    hide TextThenBlanks, Hashes;
    var line := lines[a];
    var level := Hashes(line);
    if InlineHeading(line, title, space) {
      var j :| level < j <= |line| && AllSpace(line[level..j], space) && TextThenBlanks(line[j..], title);
      assert line[level..j][0] == line[level];
    } else if level < |line| {
      assert line[level..][0] == line[level];
    }
  }

  // ---------------------------------------------------------------------------------------
  // Replacing

  /** What follows the new body: the rest of the note, or the empty line behind the last newline. */
  function Rest(lines: Lines, end: nat): (r: Lines)
    requires end <= |lines|
    ensures r != []
  {
    if end < |lines| then lines[end..] else [""]
  }

  /** `_patch_section` in replace mode; None where the code raises that there is no such section. */
  ghost function Replace(lines: Lines, title: string, body: Lines, space: Space): Option<Lines> {
    match FindSection(lines, title, space)
    case None => None
    case Some(s) => Some(lines[..s.last + 1] + [""] + body + Rest(lines, s.end))
  }

  /** The same on the text of the note. */
  ghost function PatchSection(note: string, title: string, content: string, space: Space): Option<string> {
    match Replace(Split(note, '\n'), title, Split(Trim(content, space), '\n'), space)
    case None => None
    case Some(lines) => Some(Join(lines, '\n'))
  }

  lemma JoinPrefix(lines: Lines, k: nat, sep: char)
    requires 0 < k <= |lines|
    ensures Join(lines[..k], sep) <= Join(lines, sep)
  {
    if k < |lines| {
      JoinOfConcat(lines[..k], lines[k..], sep);
      assert lines == lines[..k] + lines[k..];
    } else {
      assert lines == lines[..k];
    }
  }

  lemma JoinSuffix(lines: Lines, k: nat, sep: char)
    requires 0 < k < |lines|
    ensures EndsWith(Join(lines, sep), Join(lines[k..], sep))
  {
    JoinOfConcat(lines[..k], lines[k..], sep);
    assert lines == lines[..k] + lines[k..];
  }

  lemma PatchedText(head: Lines, text: string, rest: Lines)
    requires head != [] && rest != []
    ensures Join(head + [""] + Split(text, '\n') + rest, '\n')
            == Join(head, '\n') + "\n\n" + text + "\n" + Join(rest, '\n')
  {
    hide Split, Join;
    var body := Split(text, '\n');
    JoinOfSplit(text, '\n');
    JoinOfConcat(head + [""] + body, rest, '\n');
    JoinOfConcat(head + [""], body, '\n');
    JoinOfConcat(head, [""], '\n');
    JoinOfEmpty('\n');
    var front := Join(head, '\n');
    assert front + ['\n'] + "" + ['\n'] + text == front + "\n\n" + text;
  }

  lemma JoinOfEmpty(sep: char)
    ensures Join([""], sep) == ""
  {
  }

  /**
   * Everything up to the end of the heading, and everything from the end of the section on, stays as it
   * was, character for character; in between comes a blank line and the stripped new text.
   */
  lemma ReplaceFrames(note: string, title: string, content: string, space: Space)
    requires Title(title, space) && FindSection(Split(note, '\n'), title, space).Some?
    ensures var lines := Split(note, '\n');
            var s := FindSection(lines, title, space).value;
            var upTo := Join(lines[..s.last + 1], '\n');
            var after := if s.end < |lines| then Join(lines[s.end..], '\n') else "";
            && upTo <= note && EndsWith(note, after)
            && PatchSection(note, title, content, space) == Some(upTo + "\n\n" + Trim(content, space) + "\n" + after)
  {
    hide FindSection, Split, Join;
    var lines := Split(note, '\n');
    var s := FindSection(lines, title, space).value;
    JoinOfSplit(note, '\n');
    JoinOfEmpty('\n');
    JoinPrefix(lines, s.last + 1, '\n');
    if s.end < |lines| {
      JoinSuffix(lines, s.end, '\n');
    }
    PatchedText(lines[..s.last + 1], Trim(content, space), Rest(lines, s.end));
  }

  // ---------------------------------------------------------------------------------------
  // The section is found again

  /** No line of the new text ends a section of this level. */
  ghost predicate Stays(body: Lines, level: nat, space: Space) {
    forall i :: 0 <= i < |body| ==> !Ends(body[i], level, true, space)
  }

  lemma {:induction false} NextInkStays(lines: Lines, other: Lines, i: nat, n: nat, space: Space)
    requires i <= n < |lines| && n < |other| && lines[..n + 1] == other[..n + 1] && !AllSpace(lines[n], space)
    ensures NextInk(lines, i, space) == NextInk(other, i, space) <= n
    decreases n - i
  {
    assert lines[i] == lines[..n + 1][i] && other[i] == other[..n + 1][i];
    if AllSpace(lines[i], space) {
      NextInkStays(lines, other, i + 1, n, space);
    }
  }

  /** Whether a heading starts in a line depends on the lines up to the next one with ink. */
  lemma HeadingStays(lines: Lines, other: Lines, a: nat, n: nat, title: string, space: Space)
    requires a < n < |lines| && n < |other| && lines[..n + 1] == other[..n + 1] && !AllSpace(lines[n], space)
    ensures HeadingEnd(lines, a, title, space) == HeadingEnd(other, a, title, space)
  {
    hide InlineHeading, TitleLine, BareHashes, AllSpace, NextInk;
    assert lines[a] == lines[..n + 1][a] && other[a] == other[..n + 1][a];
    NextInkStays(lines, other, a + 1, n, space);
    var b := NextInk(lines, a + 1, space);
    assert lines[b] == lines[..n + 1][b] && other[b] == other[..n + 1][b];
  }

  lemma HashesAreInk(line: string, space: Space)
    requires Hashes(line) >= 1 && !space('#')
    ensures !AllSpace(line, space)
  {
    assert line[0] == '#';
  }

  lemma TitleIsInk(line: string, title: string, space: Space)
    requires Title(title, space) && TitleLine(line, title, space)
    ensures !AllSpace(line, space)
  {
    var j :| 0 <= j <= |line| && AllSpace(line[..j], space) && TextThenBlanks(line[j..], title);
    var i :| 0 <= i < |title| && !space(title[i]);
    assert line[j + i] == line[j..][i] == title[i];
  }

  lemma ShorterPrefix(lines: Lines, other: Lines, i: nat, j: nat)
    requires i <= j <= |lines| && j <= |other| && lines[..j] == other[..j]
    ensures lines[..i] == other[..i]
  {
    assert lines[..i] == lines[..j][..i] && other[..i] == other[..j][..i];
  }

  lemma NoneBefore(lines: Lines, other: Lines, a: nat, title: string, space: Space)
    requires !space('#') && a < |lines| && a < |other| && lines[..a + 1] == other[..a + 1]
    requires Hashes(lines[a]) >= 1 && forall k :: 0 <= k < a ==> HeadingEnd(lines, k, title, space).None?
    ensures forall k :: 0 <= k < a ==> HeadingEnd(other, k, title, space).None?
  {
    hide HeadingEnd, AllSpace, Hashes;
    HashesAreInk(lines[a], space);
    forall k | 0 <= k < a ensures HeadingEnd(other, k, title, space).None? {
      HeadingStays(lines, other, k, a, title, space);
    }
  }

  /** Notes that agree up to the end of the first heading with this title agree on where it is. */
  lemma HeadingIsFoundAgain(lines: Lines, other: Lines, a: nat, b: nat, title: string, space: Space)
    requires Title(title, space) && !space('#')
    requires FirstHeading(lines, 0, title, space) == Some(a) && HeadingEnd(lines, a, title, space) == Some(b)
    requires a <= b < |lines| && b < |other| && lines[..b + 1] == other[..b + 1]
    ensures FirstHeading(other, 0, title, space) == Some(a) && HeadingEnd(other, a, title, space) == Some(b)
  {
    hide HeadingEnd, FirstHeading, Title, Hashes;
    ShorterPrefix(lines, other, a + 1, b + 1);
    NoneBefore(lines, other, a, title, space);
    if a < b {
      SpanStays(lines, other, a, b, title, space);
    } else {
      InlineStays(lines, other, a, title, space);
    }
    FirstIsFirst(other, 0, a, title, space);
  }

  lemma SpanStays(lines: Lines, other: Lines, a: nat, b: nat, title: string, space: Space)
    requires Title(title, space) && a < b < |lines| && b < |other| && lines[..b + 1] == other[..b + 1]
    requires HeadingEnd(lines, a, title, space) == Some(b)
    ensures HeadingEnd(other, a, title, space) == Some(b)
  {
    hide InlineHeading, BareHashes, AllSpace, Title;
    TitleIsInk(lines[b], title, space);
    HeadingStays(lines, other, a, b, title, space);
  }

  lemma InlineStays(lines: Lines, other: Lines, a: nat, title: string, space: Space)
    requires a < |lines| && a < |other| && lines[..a + 1] == other[..a + 1]
    requires HeadingEnd(lines, a, title, space) == Some(a)
    ensures HeadingEnd(other, a, title, space) == Some(a)
  {
    hide InlineHeading, TitleLine, BareHashes, AllSpace;
    assert lines[a] == lines[..a + 1][a] && other[a] == other[..a + 1][a];
  }

  lemma {:induction false} FirstIsFirst(lines: Lines, i: nat, a: nat, title: string, space: Space)
    requires i <= a < |lines| && HeadingEnd(lines, a, title, space).Some?
    requires forall k :: i <= k < a ==> HeadingEnd(lines, k, title, space).None?
    ensures FirstHeading(lines, i, title, space) == Some(a)
    decreases a - i
  {
    hide HeadingEnd;
    if i < a {
      FirstIsFirst(lines, i + 1, a, title, space);
    }
  }

  lemma {:induction false} BodyEndIs(lines: Lines, i: nat, e: nat, level: nat, space: Space)
    requires i <= e <= |lines|
    requires forall k :: i <= k < e ==> !Ends(lines[k], level, k + 1 < |lines|, space)
    requires e < |lines| ==> Ends(lines[e], level, e + 1 < |lines|, space)
    ensures BodyEnd(lines, i, level, space) == e
    decreases e - i
  {
    hide Ends;
    if i < e {
      BodyEndIs(lines, i + 1, e, level, space);
    }
  }

  lemma EmptyLineEndsNothing(level: nat, newline: bool, space: Space)
    ensures !Ends("", level, newline, space)
  {
  }

  function Patched(head: Lines, body: Lines, rest: Lines): Lines {
    head + [""] + body + rest
  }

  lemma PatchedAt(head: Lines, body: Lines, rest: Lines, k: nat)
    requires rest != [] && |head| <= k <= |head| + 1 + |body|
    ensures |Patched(head, body, rest)| == |head| + 1 + |body| + |rest|
    ensures Patched(head, body, rest)[k]
            == if k == |head| then "" else if k <= |head| + |body| then body[k - |head| - 1] else rest[0]
  {
  }

  /** Where the section of a note just patched ends: at the first new line that ends it, or where it did. */
  lemma PatchedEnd(head: Lines, body: Lines, rest: Lines, level: nat, i: nat, space: Space)
    requires rest == [""] || (rest != [] && Ends(rest[0], level, 1 < |rest|, space))
    requires i <= |body| && forall k :: 0 <= k < i ==> !Ends(body[k], level, true, space)
    requires i < |body| ==> Ends(body[i], level, true, space)
    ensures var end := |head| + 1 + i + if i == |body| && rest == [""] then 1 else 0;
            |head| <= |Patched(head, body, rest)| && BodyEnd(Patched(head, body, rest), |head|, level, space) == end
  {
    hide Ends, BodyEnd, Patched;
    var patched := Patched(head, body, rest);
    var end := |head| + 1 + i + if i == |body| && rest == [""] then 1 else 0;
    PatchedAt(head, body, rest, |head|);
    forall k | |head| <= k < end ensures !Ends(patched[k], level, k + 1 < |patched|, space) {
      PatchedStays(head, body, rest, level, i, k, space);
    }
    if end < |patched| {
      PatchedStops(head, body, rest, level, i, space);
    }
    BodyEndIs(patched, |head|, end, level, space);
  }

  lemma PatchedStays(head: Lines, body: Lines, rest: Lines, level: nat, i: nat, k: nat, space: Space)
    requires rest != [] && i <= |body| && forall k :: 0 <= k < i ==> !Ends(body[k], level, true, space)
    requires |head| <= k < |head| + 1 + i || (i == |body| && rest == [""] && k == |head| + 1 + i)
    ensures var patched := Patched(head, body, rest);
            k < |patched| && !Ends(patched[k], level, k + 1 < |patched|, space)
  {
    hide Ends, Patched;
    EmptyLineEndsNothing(level, true, space);
    EmptyLineEndsNothing(level, false, space);
    PatchedAt(head, body, rest, k);
  }

  lemma PatchedStops(head: Lines, body: Lines, rest: Lines, level: nat, i: nat, space: Space)
    requires rest == [""] || (rest != [] && Ends(rest[0], level, 1 < |rest|, space))
    requires i <= |body| && (i < |body| ==> Ends(body[i], level, true, space)) && (i < |body| || rest != [""])
    ensures var patched := Patched(head, body, rest);
            var at := |head| + 1 + i;
            at < |patched| && Ends(patched[at], level, at + 1 < |patched|, space)
  {
    hide Ends, Patched;
    PatchedAt(head, body, rest, |head| + 1 + i);
  }

  /** After a replacement the section is found again; its end is decided by the new text alone. */
  lemma SectionIsFoundAgain(lines: Lines, title: string, body: Lines, i: nat, space: Space)
    requires Title(title, space) && !space('#') && FindSection(lines, title, space).Some?
    requires var level := Hashes(lines[FindSection(lines, title, space).value.first]);
             && i <= |body| && (forall k :: 0 <= k < i ==> !Ends(body[k], level, true, space))
             && (i < |body| ==> Ends(body[i], level, true, space))
    ensures var s := FindSection(lines, title, space).value;
            var rest := Rest(lines, s.end);
            var end := s.last + 2 + i + if i == |body| && rest == [""] then 1 else 0;
            FindSection(lines[..s.last + 1] + [""] + body + rest, title, space) == Some(Bounds(s.first, s.last, end))
  {
    hide HeadingEnd, FirstHeading, Ends, Title, Hashes;
    var s := FindSection(lines, title, space).value;
    var head, rest := lines[..s.last + 1], Rest(lines, s.end);
    var patched := head + [""] + body + rest;
    assert patched[..s.last + 1] == head;
    HeadingIsFoundAgain(lines, patched, s.first, s.last, title, space);
    assert patched[s.first] == head[s.first] == lines[s.first];
    RestStarts(lines, s.last + 1, Hashes(lines[s.first]), space);
    PatchedEnd(head, body, rest, Hashes(lines[s.first]), i, space);
  }

  lemma RestStarts(lines: Lines, i: nat, level: nat, space: Space)
    requires i <= |lines|
    ensures var rest := Rest(lines, BodyEnd(lines, i, level, space));
            rest == [""] || Ends(rest[0], level, 1 < |rest|, space)
  {
    hide Ends;
    var e := BodyEnd(lines, i, level, space);
    if e < |lines| {
      assert lines[e..][0] == lines[e] && |lines[e..]| == |lines| - e;
    }
  }

  ghost function FirstThatEnds(body: Lines, level: nat, space: Space): (i: nat)
    ensures i <= |body|
    ensures forall k :: 0 <= k < i ==> !Ends(body[k], level, true, space)
    ensures i < |body| ==> Ends(body[i], level, true, space)
  {
    if Stays(body, level, space) then |body|
    else if Ends(body[0], level, true, space) then 0
    else
      assert forall k :: 1 <= k < |body| ==> body[k] == body[1..][k - 1];
      1 + FirstThatEnds(body[1..], level, space)
  }

  /**
   * Replacing a section by the same text twice changes nothing the second time exactly when no line of
   * the text is a heading at or above the level of the section.
   */
  lemma ReplaceTwice(lines: Lines, title: string, body: Lines, space: Space)
    requires Title(title, space) && !space('#') && FindSection(lines, title, space).Some?
    ensures var once := Replace(lines, title, body, space).value;
            Replace(once, title, body, space) == Some(once)
            <==> Stays(body, Hashes(lines[FindSection(lines, title, space).value.first]), space)
  {
    hide FindSection, Ends, Title, Hashes;
    var s := FindSection(lines, title, space).value;
    var level := Hashes(lines[s.first]);
    var i := FirstThatEnds(body, level, space);
    var head, rest := lines[..s.last + 1], Rest(lines, s.end);
    var once := head + [""] + body + rest;
    SectionIsFoundAgain(lines, title, body, i, space);
    var again := FindSection(once, title, space).value;
    assert once[..s.last + 1] == head;
    if i == |body| {
      assert Rest(once, again.end) == rest;
    } else {
      assert |Rest(once, again.end)| == |body| - i + |rest|;
    }
  }

  /** The same on the text of the note: the second patch leaves it as it is exactly under that condition. */
  lemma PatchTwice(note: string, title: string, content: string, space: Space)
    requires Title(title, space) && !space('#') && FindSection(Split(note, '\n'), title, space).Some?
    ensures var lines := Split(note, '\n');
            var once := PatchSection(note, title, content, space).value;
            PatchSection(once, title, content, space) == Some(once)
            <==> Stays(Split(Trim(content, space), '\n'),
                       Hashes(lines[FindSection(lines, title, space).value.first]), space)
  {
    hide FindSection, Stays, Title, Trim;
    var lines, body := Split(note, '\n'), Split(Trim(content, space), '\n');
    var once := Replace(lines, title, body, space).value;
    ReplaceTwice(lines, title, body, space);
    SplitOfJoin(once, '\n');
    var twice := Replace(once, title, body, space);
    if twice.Some? {
      SplitOfJoin(twice.value, '\n');
    }
  }

  /** Replacing the section "A" by the heading "# B" adds another "# B" every time. */
  lemma ReplacingRepeats(space: Space)
    requires space(' ') && forall c :: c in "#AB" ==> !space(c)
    ensures var once := ["# A", "", "# B", ""];
            && Replace(["# A"], "A", ["# B"], space) == Some(once)
            && Replace(once, "A", ["# B"], space) != Some(once)
  {
    var line, other := "# A", "# B";
    assert line[1..] == " A" && other[1..] == " B" && Hashes(" A") == 0 && Hashes(" B") == 0;
    assert Hashes(line) == 1 && Hashes(other) == 1;
    assert line[2..] == "A" && AllSpace(line[1..2], space) && TextThenBlanks(line[2..], "A");
    assert InlineHeading(line, "A", space);
    assert FindSection([line], "A", space) == Some(Bounds(0, 0, 1));
    assert [line][..1] + [""] + [other] + [""] == ["# A", "", "# B", ""];
    assert Ends([other][0], 1, true, space);
    assert Title("A", space) by { assert !space("A"[0]); }
    ReplaceTwice([line], "A", [other], space);
  }
}
