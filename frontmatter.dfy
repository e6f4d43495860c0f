/**
  Front-matter extraction: a document may open with a header delimited by
  two `---` markers; the header is handed to a YAML loader and the rest is
  the body.
*/
module FrontMatter {
  import opened Wrappers
  import opened Text

  /**
    A value found in a header. `Other` is any value that is not a string;
    `shown` is what Python prints for it inside an f-string.
  */
  datatype Value = Str(s: string) | Other(shown: string)

  /** A parsed header, keyed by the printed form of each YAML key. */
  type Header = map<string, Value>

  /**
    What the YAML loader makes of a header: a mapping, some other value
    (a scalar, a list, or nothing at all), or a syntax error.
  */
  datatype LoadOutcome = LoadedMapping(entries: Header) | LoadedOther | LoadFailed

  /** Whether a YAML library could be imported, and if so what it does with a text. */
  datatype YamlSupport = NoYaml | SafeLoad(load: string -> LoadOutcome)

  /** The pair `(front_matter, body)`. */
  datatype Extracted = Extracted(frontMatter: Header, body: string)

  const Delimiter := "---"

  /** The sentinel key holding the raw header when no YAML library is available. */
  const RawYamlKey := "_raw_yaml"

  /** The sentinel key holding the raw header when the YAML loader rejected it. */
  const YamlErrorKey := "_yaml_error"

  /** The header map chosen for the stripped header text `block`. */
  function HeaderFor(block: string, yaml: YamlSupport): (h: Header)
    ensures h == map[] <==>
      yaml.SafeLoad? && (yaml.load(block) == LoadedOther || yaml.load(block) == LoadedMapping(map[]))
  {
    match yaml
    case NoYaml =>
      var h := map[RawYamlKey := Str(block)];
      assert RawYamlKey in h;
      h
    case SafeLoad(load) =>
      match load(block)
      case LoadedMapping(m) => m
      case LoadedOther => map[]
      case LoadFailed =>
        var h := map[YamlErrorKey := Str(block)];
        assert YamlErrorKey in h;
        h
  }

  /** `extract_front_matter(content)`. */
  function ExtractFrontMatter(content: string, yaml: YamlSupport): (r: Extracted)
    ensures r.body == content ==> r.frontMatter == map[]
    ensures r.body != content ==>
      StartsWith(content, Delimiter) && |r.body| + 6 <= |content| && r.body == content[|content| - |r.body|..]
  {
    if !StartsWith(content, Delimiter) then Extracted(map[], content)
    else
      var parts := Split(content, Delimiter, 2);
      if |parts| < 3 then Extracted(map[], content)
      else HeaderAndBody(content, parts, yaml)
  }

  /** The stripped, loaded header and the body after the closing marker, less its leading newlines. */
  function HeaderAndBody(content: string, parts: seq<string>, yaml: YamlSupport): (r: Extracted)
    requires |parts| == 3 && Join(parts, Delimiter) == content
    ensures |r.body| + 6 <= |content| && r.body == content[|content| - |r.body|..]
  {
    AfterClosingIsSuffix(content, parts);
    Extracted(HeaderFor(Strip(parts[1]), yaml), LStrip(parts[2], {'\n'}))
  }

  /** What follows the second marker, less its leading newlines, ends the content, at least two markers in. */
  lemma AfterClosingIsSuffix(content: string, parts: seq<string>)
    requires |parts| == 3 && Join(parts, Delimiter) == content
    ensures var b := LStrip(parts[2], {'\n'});
      |b| + 6 <= |content| && b == content[|content| - |b|..]
  {
    var tail := parts[2];
    var b := LStrip(tail, {'\n'});
    JoinOfThree(parts, Delimiter);
    var head := parts[0] + Delimiter + parts[1] + Delimiter;
    assert content == head + tail;
    assert b == tail[|tail| - |b|..];
    SuffixThroughConcat(head, tail, b);
  }

  /** Joining three parts puts the separator between each neighbouring pair. */
  lemma JoinOfThree(parts: seq<string>, sep: string)
    requires |parts| == 3
    ensures Join(parts, sep) == parts[0] + sep + parts[1] + sep + parts[2]
  {
    assert parts[1..][1..] == [parts[2]];
    assert Join(parts[1..], sep) == parts[1] + sep + parts[2];
    assert parts[0] + sep + (parts[1] + sep + parts[2]) == parts[0] + sep + parts[1] + sep + parts[2];
  }

  /** A suffix of `tail` is a suffix of `head + tail`. */
  lemma SuffixThroughConcat(head: string, tail: string, b: string)
    requires |b| <= |tail| && b == tail[|tail| - |b|..]
    ensures b == (head + tail)[|head + tail| - |b|..]
  {
    var n := |head|;
    assert (head + tail)[n..] == tail;
    assert (head + tail)[|head + tail| - |b|..] == (head + tail)[n..][|tail| - |b|..];
  }

  /** The content opens with `---` and has a second `---` after it. */
  predicate HasHeader(content: string) {
    StartsWith(content, Delimiter) &&
    exists i :: 3 <= i <= |content| && OccursAt(content, Delimiter, i)
  }

  /** The first occurrence of `---` after the opening one is at `j`. */
  predicate ClosesAt(content: string, j: nat) {
    StartsWith(content, Delimiter) && 3 <= j && OccursAt(content, Delimiter, j) &&
    forall i: nat :: 3 <= i < j ==> !OccursAt(content, Delimiter, i)
  }

  /** How `split("---", 2)` cuts a content that opens with `---`: at 0, then at the next marker. */
  lemma SplitAfterOpening(content: string)
    requires StartsWith(content, Delimiter)
    ensures var parts := Split(content, Delimiter, 2);
      parts[0] == [] && parts[1..] == Split(content[3..], Delimiter, 1)
  {
    assert OccursAt(content, Delimiter, 0);
  }

  /** An occurrence of the marker in `content[3..]` is one in `content`, three places later. */
  lemma TailOccurrence(content: string, k: nat)
    requires 3 <= |content|
    ensures OccursAt(content[3..], Delimiter, k) <==> OccursAt(content, Delimiter, k + 3)
  {
    if k + 3 + 3 <= |content| {
      assert content[3..][k..k + 3] == content[k + 3..k + 6];
    }
  }

  /**
    With no header (no opening marker, or no closing one), the front
    matter is empty and the body is the content itself.
  */
  lemma NoHeaderKeepsContent(content: string, yaml: YamlSupport)
    requires !HasHeader(content)
    ensures ExtractFrontMatter(content, yaml) == Extracted(map[], content)
  {
    if StartsWith(content, Delimiter) {
      SplitAfterOpening(content);
      forall k: nat ensures !OccursAt(content[3..], Delimiter, k) {
        TailOccurrence(content, k);
      }
      assert Find(content[3..], Delimiter, 0).None?;
      assert |Split(content, Delimiter, 2)| == 2;
    }
  }

  /**
    With a header closed at `j`: the header text is what lies between the
    markers, stripped; the body is what follows the closing marker with
    leading newlines removed, so it never starts with a newline; and the
    header map is one of the four outcomes, told apart by the sentinel keys.
  */
  lemma HeaderClosedAt(content: string, yaml: YamlSupport, j: nat)
    requires ClosesAt(content, j)
    ensures var r := ExtractFrontMatter(content, yaml);
      && r.body == LStrip(content[j + 3..], {'\n'})
      && (r.body == [] || r.body[0] != '\n')
      && |r.body| < |content|
      && r.frontMatter == HeaderFor(Strip(content[3..j]), yaml)
  {
    SplitAtClosing(content, j);
    var parts := Split(content, Delimiter, 2);
    assert |parts| == 3 && parts[1] == content[3..j] && parts[2] == content[j + 3..];
    var r := ExtractFrontMatter(content, yaml);
    assert r == Extracted(HeaderFor(Strip(parts[1]), yaml), LStrip(parts[2], {'\n'}));
  }

  /** A content that opens with `---` and next holds one at `j` splits into nothing, the header and the rest. */
  lemma SplitAtClosing(content: string, j: nat)
    requires ClosesAt(content, j)
    ensures Split(content, Delimiter, 2) == [[], content[3..j], content[j + 3..]]
  {
    SplitAfterOpening(content);
    var tail := content[3..];
    TailOccurrence(content, j - 3);
    forall i: nat | i < j - 3 ensures !OccursAt(tail, Delimiter, i) {
      TailOccurrence(content, i);
    }
    SplitOnceAt(tail, Delimiter, j - 3);
    assert tail[..j - 3] == content[3..j];
    assert tail[j..] == content[j + 3..];
  }

  /** The four header outcomes, spelled out. */
  lemma HeaderOutcomes(block: string, yaml: YamlSupport)
    ensures var h := HeaderFor(block, yaml);
      && (yaml.NoYaml? ==> h == map[RawYamlKey := Str(block)] && h != map[] && YamlErrorKey !in h)
      && (yaml.SafeLoad? && yaml.load(block) == LoadFailed ==>
            h == map[YamlErrorKey := Str(block)] && RawYamlKey !in h)
      && (yaml.SafeLoad? && yaml.load(block) == LoadedOther ==> h == map[])
      && (yaml.SafeLoad? && yaml.load(block).LoadedMapping? ==> h == yaml.load(block).entries)
  {
    if yaml.NoYaml? {
      assert RawYamlKey in HeaderFor(block, yaml);
    }
  }

  /** The body equals the content exactly when there is no header. */
  lemma BodyUnchangedIffNoHeader(content: string, yaml: YamlSupport)
    ensures ExtractFrontMatter(content, yaml).body == content <==> !HasHeader(content)
  {
    if HasHeader(content) {
      match Find(content, Delimiter, 3)
      case None =>
        assert false;
      case Some(j) =>
        HeaderClosedAt(content, yaml, j);
    } else {
      NoHeaderKeepsContent(content, yaml);
    }
  }

  /** No marker starts inside a header that holds none and does not end with `-`. */
  lemma NoMarkerInsideHeader(h: string, rest: string, i: nat)
    requires !Contains(h, Delimiter)
    requires h == [] || h[|h| - 1] != '-'
    requires 3 <= i < 3 + |h|
    ensures !OccursAt(Delimiter + h + Delimiter + rest, Delimiter, i)
  {
    var content := Delimiter + h + Delimiter + rest;
    if i + 3 <= 3 + |h| {
      assert content[i..i + 3] == h[i - 3..i];
      assert !OccursAt(h, Delimiter, i - 3);
    } else {
      assert content[2 + |h|] == h[|h| - 1];
      assert i <= 2 + |h| < i + 3;
    }
  }

  /** The pieces of `---`, `h`, `---`, `rest`, recovered by position. */
  lemma ComposedPieces(h: string, rest: string)
    ensures var content, j := Delimiter + h + Delimiter + rest, 3 + |h|;
      && content[..3] == Delimiter && content[j..j + 3] == Delimiter
      && content[3..j] == h && content[j + 3..] == rest
  {
  }

  /**
    A document written as `---`, a header `h`, `---`, then `rest` yields the
    loader's reading of `h` (stripped) and `rest` without leading newlines,
    provided `h` holds no `---` and does not end with `-` (either would move
    the closing marker).
  */
  lemma ComposedDocument(h: string, rest: string, yaml: YamlSupport)
    requires !Contains(h, Delimiter)
    requires h == [] || h[|h| - 1] != '-'
    ensures var r := ExtractFrontMatter(Delimiter + h + Delimiter + rest, yaml);
      r.frontMatter == HeaderFor(Strip(h), yaml) && r.body == LStrip(rest, {'\n'})
  {
    var content := Delimiter + h + Delimiter + rest;
    var j := 3 + |h|;
    ComposedPieces(h, rest);
    forall i: nat | 3 <= i < j ensures !OccursAt(content, Delimiter, i) {
      NoMarkerInsideHeader(h, rest, i);
    }
    assert ClosesAt(content, j);
    HeaderClosedAt(content, yaml, j);
  }
}
