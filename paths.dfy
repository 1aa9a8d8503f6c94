/**
 * Dotted field paths: splitting a path on `.`, joining segments back, and the
 * prefix rule that decides whether a blacklist entry applies to a block type.
 */
module Paths {
  import opened Wrappers

  const Sep: char := '.'

  /** The segments joined with the separator between them (the inverse of Split). */
  function Join(parts: seq<string>): string
  {
    if |parts| == 0 then ""
    else if |parts| == 1 then parts[0]
    else parts[0] + [Sep] + Join(parts[1..])
  }

  /** Splitting on every separator, as the standard library's string split
      does: "a..b" gives ["a", "", "b"], "" gives [""]. Never empty; no
      segment holds a separator; joining the segments gives the input back. */
  function Split(s: string): (parts: seq<string>)
    ensures |parts| >= 1
    ensures forall i :: 0 <= i < |parts| ==> Sep !in parts[i]
    ensures Join(parts) == s
  {
    if |s| == 0 then [""]
    else
      var rest := Split(s[1..]);
      if s[0] == Sep then
        assert [Sep] + s[1..] == s;
        [""] + rest
      else
        assert [s[0]] + rest[0] + Join(rest)[|rest[0]|..] == s by {
          JoinHead(rest);
        }
        JoinHead(rest);
        assert Join([[s[0]] + rest[0]] + rest[1..]) == s by {
          if |rest| > 1 {
            assert ([[s[0]] + rest[0]] + rest[1..])[1..] == rest[1..];
          }
        }
        [[s[0]] + rest[0]] + rest[1..]
  }

  /** The first segment is a prefix of the joined string, followed by the
      separator and the join of the rest when there is more than one segment. */
  lemma JoinHead(parts: seq<string>)
    requires |parts| >= 1
    ensures Join(parts) == parts[0] + Join(parts)[|parts[0]|..]
    ensures |parts| > 1 ==> Join(parts)[|parts[0]|..] == [Sep] + Join(parts[1..])
    ensures |parts| == 1 ==> Join(parts)[|parts[0]|..] == ""
  {
  }

  /** Split is the inverse of Join on separator-free segments. */
  lemma {:induction false} SplitJoin(parts: seq<string>)
    requires |parts| >= 1
    requires forall i :: 0 <= i < |parts| ==> Sep !in parts[i]
    ensures Split(Join(parts)) == parts
  {
    SplitAppend(parts[0], if |parts| == 1 then [] else parts[1..]);
  }

  /** Splitting a separator-free head followed by the separator and a tail. */
  lemma {:induction false} SplitAppend(head: string, tail: seq<string>)
    requires Sep !in head
    requires forall i :: 0 <= i < |tail| ==> Sep !in tail[i]
    ensures |tail| == 0 ==> Split(head) == [head]
    ensures |tail| > 0 ==> Split(head + [Sep] + Join(tail)) == [head] + tail
    decreases |tail|, |head|
  {
    if |head| == 0 {
      if |tail| > 0 {
        assert head + [Sep] + Join(tail) == [Sep] + Join(tail);
        assert ([Sep] + Join(tail))[1..] == Join(tail);
        SplitAppend(tail[0], if |tail| == 1 then [] else tail[1..]);
        if |tail| == 1 {
          assert Join(tail) == tail[0];
        } else {
          assert Join(tail) == tail[0] + [Sep] + Join(tail[1..]);
        }
      }
    } else {
      SplitAppend(head[1..], tail);
      if |tail| == 0 {
        assert [head[0]] + head[1..] == head;
      } else {
        var s := head + [Sep] + Join(tail);
        assert s[1..] == head[1..] + [Sep] + Join(tail);
        assert s[0] == head[0] && s[0] != Sep;
        var rest := Split(s[1..]);
        assert rest == [head[1..]] + tail;
        assert Split(s) == [[s[0]] + rest[0]] + rest[1..];
        assert [s[0]] + rest[0] == head;
      }
    }
  }

  /** The prefix rule of a blacklist entry: the entry's field applies to
      blocks of type `blockType` when it starts with `blockType + "."` (for a
      field that contains a dot) or with `blockType` (for a field without a
      dot). The rest of the field after that prefix gives the path segments;
      an empty rest gives no segments. None means the entry does not apply.
      When it applies, the field is the prefix followed by the joined
      segments, no segment holds a separator, and there are no segments
      exactly when nothing follows the prefix. */
  function SegmentsFor(field: string, blockType: string): (r: Option<seq<string>>)
    ensures var prefix := if Sep in field then blockType + [Sep] else blockType;
      match r
      case None => !(prefix <= field)
      case Some(segs) =>
        && field == prefix + Join(segs)
        && (forall i :: 0 <= i < |segs| ==> Sep !in segs[i])
        && (segs == [] <==> field == prefix)
  {
    var prefix := if Sep in field then blockType + [Sep] else blockType;
    if prefix <= field then
      var rest := field[|prefix|..];
      Some(if |rest| > 0 then Split(rest) else [])
    else None
  }

  /** A dotted path under a block type yields exactly its segments: the
      prefix rule inverts writing `blockType + "." + Join(segs)`. */
  lemma SegmentsForDotted(blockType: string, segs: seq<string>)
    requires |segs| >= 1 && Join(segs) != ""
    requires forall i :: 0 <= i < |segs| ==> Sep !in segs[i]
    ensures SegmentsFor(blockType + [Sep] + Join(segs), blockType) == Some(segs)
  {
    var field := blockType + [Sep] + Join(segs);
    assert field[|blockType|] == Sep;
    assert field[|blockType + [Sep]|..] == Join(segs);
    SplitJoin(segs);
  }

  /** A field without a dot applies to every block type it merely starts
      with, and its whole remainder becomes a single segment: the field
      "filebeatx" applies to type "filebeat" with the segment "x". */
  lemma SegmentsForUndotted(field: string, blockType: string)
    requires Sep !in field
    ensures SegmentsFor(field, blockType).Some? <==> blockType <= field
    ensures blockType <= field && |field| > |blockType| ==>
      SegmentsFor(field, blockType) == Some([field[|blockType|..]])
    ensures blockType <= field && |field| == |blockType| ==>
      SegmentsFor(field, blockType) == Some([])
  {
    if blockType <= field && |field| > |blockType| {
      var rest := field[|blockType|..];
      assert forall k :: 0 <= k < |rest| ==> rest[k] == field[|blockType| + k];
      SplitAppend(rest, []);
    }
  }

  /** The "filebeatx" quirk on concrete values. */
  lemma UndottedQuirk()
    ensures SegmentsFor("filebeatx", "filebeat") == Some(["x"])
  {
    SegmentsForUndotted("filebeatx", "filebeat");
  }

  /** A dotted field never applies to a block type equal to the whole
      field: the rule then looks for the field followed by a dot. */
  lemma DottedFieldEqualToType(t: string)
    requires Sep in t
    ensures SegmentsFor(t, t) == None
  {
  }
}
