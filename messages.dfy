/**
  The checker's messages are plain strings whose first word is a severity
  tag; the runner tells fatal findings from the others only by that tag.
*/
module Messages {
  import opened Text

  const ErrorTag := "[ERROR]"
  const WarnTag := "[WARN]"
  const InfoTag := "[INFO]"

  /** A message the runner counts as fatal. */
  predicate IsError(m: string) {
    StartsWith(m, ErrorTag)
  }

  /** A message the runner lists as a warning. */
  predicate IsWarning(m: string) {
    StartsWith(m, WarnTag)
  }

  /** A banner line. */
  predicate IsInfo(m: string) {
    StartsWith(m, InfoTag)
  }

  /** `error(msg)`: tags `msg` as fatal; the text stays recoverable after the tag and one space. */
  function Error(msg: string): (r: string)
    ensures IsError(r) && !IsWarning(r)
    ensures |r| == |ErrorTag| + 1 + |msg| && r[|ErrorTag|] == ' ' && r[|ErrorTag| + 1..] == msg
  {
    var r := ErrorTag + " " + msg;
    assert r[..|ErrorTag|] == ErrorTag && r[1] == 'E' != WarnTag[1];
    r
  }

  /** `warn(msg)`: tags `msg` as a warning (tag, then two spaces). */
  function Warn(msg: string): (r: string)
    ensures IsWarning(r) && !IsError(r)
    ensures |r| == |WarnTag| + 2 + |msg| && r[|WarnTag|..|WarnTag| + 2] == "  " && r[|WarnTag| + 2..] == msg
  {
    var r := WarnTag + "  " + msg;
    assert r[..|WarnTag|] == WarnTag && r[1] == 'W' != ErrorTag[1];
    r
  }

  /** `info(msg)`: a banner that is neither fatal nor a warning. */
  function Info(msg: string): (r: string)
    ensures IsInfo(r) && !IsError(r) && !IsWarning(r)
    ensures |r| == |InfoTag| + 2 + |msg| && r[|InfoTag|..|InfoTag| + 2] == "  " && r[|InfoTag| + 2..] == msg
  {
    var r := InfoTag + "  " + msg;
    assert r[..|InfoTag|] == InfoTag;
    assert r[1] == 'I' != ErrorTag[1] && r[1] != WarnTag[1];
    r
  }

  /** No message carries two tags: they differ in their second character. */
  lemma TagsExclusive(m: string)
    ensures IsError(m) ==> !IsWarning(m) && !IsInfo(m)
    ensures IsWarning(m) ==> !IsInfo(m)
  {
    if IsError(m) {
      assert m[1] == ErrorTag[1] != WarnTag[1];
      assert m[1] != InfoTag[1];
    }
    if IsWarning(m) {
      assert m[1] == WarnTag[1] != InfoTag[1];
    }
  }
}
