/** White space and separators, as JavaScript's string methods see them. */
module Text {
  import opened Sequences

  /** White space in the sense of `String.prototype.trim`. */
  predicate IsSpace(c: char) {
    || c in ['\t', '\n', '\r', ' ', '\U{b}', '\U{c}', '\U{a0}', '\U{1680}']
    || '\U{2000}' <= c <= '\U{200a}'
    || c in ['\U{2028}', '\U{2029}', '\U{202f}', '\U{205f}', '\U{3000}', '\U{feff}']
  }

  predicate IsBlank(s: string) {
    forall c <- s :: IsSpace(c)
  }

  function TrimStart(s: string): string {
    if s != [] && IsSpace(s[0]) then TrimStart(s[1..]) else s
  }

  function TrimEnd(s: string): string {
    if s != [] && IsSpace(s[|s| - 1]) then TrimEnd(s[..|s| - 1]) else s
  }

  /** The parts between separators; an empty text is one empty part. */
  function Split(s: string, separator: char): (parts: seq<string>)
    ensures parts != []
    ensures parts[0] == [] <==> s == [] || s[0] == separator
  {
    if s == [] then [[]]
    else
      var parts := Split(s[1..], separator);
      if s[0] == separator then [[]] + parts else [[s[0]] + parts[0]] + parts[1..]
  }

  function Join(parts: seq<string>, separator: string): string {
    if parts == [] then [] else if |parts| == 1 then parts[0] else parts[0] + separator + Join(parts[1..], separator)
  }

  /** Parts without separators are read back from the joined text. */
  lemma {:induction false} SplitJoined(parts: seq<string>, separator: char)
    requires parts != [] && forall part <- parts :: separator !in part
    ensures Split(Join(parts, [separator]), separator) == parts
    decreases |parts|
  {
    if |parts| == 1 {
      SplitFirst(parts[0], "", separator);
      Unsuffixed(parts[0]);
      Unsuffixed([parts[0]]);
    } else {
      assert parts[0] in parts && forall part <- parts[1..] :: part in parts;
      SplitJoined(parts[1..], separator);
      var rest := Join(parts[1..], [separator]);
      Regroup(parts[0], [separator], rest);
      SplitFirst(parts[0], [separator] + rest, separator);
      assert ([separator] + rest)[1..] == rest;
      assert parts == [parts[0]] + parts[1..];
    }
  }

  lemma {:induction false} SplitBehind(c: char, tail: string, first: string, others: seq<string>, separator: char)
    requires c != separator && Split(tail, separator) == [first] + others
    ensures Split([c] + tail, separator) == [[c] + first] + others
  {
    assert ([c] + tail)[1..] == tail && ([first] + others)[1..] == others;
  }

  lemma {:induction false} SplitFirst(part: string, more: string, separator: char)
    requires separator !in part && (more != "" ==> more[0] == separator)
    ensures Split(part + more, separator) == [part] + if more == "" then [] else Split(more[1..], separator)
    decreases |part|
  {
    var others := if more == "" then [] else Split(more[1..], separator);
    if part == [] {
      Unprefixed(more);
    } else {
      var c, tail := part[0], part[1..];
      assert part == [c] + tail && c in part;
      SplitFirst(tail, more, separator);
      Regroup([c], tail, more);
      SplitBehind(c, tail + more, tail, others, separator);
    }
  }
}
