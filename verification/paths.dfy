/** The path text handling of the `mv` and `cp` commands (terminal_game/terminal.py):
    splitting a path at '/', joining the parts back, dropping one trailing '/' (which asks
    for a directory destination) and taking the last segment as the new name. */
module Paths {

  /** `path.split('/')`: the texts between the slashes, at least one (possibly empty). */
  function SplitOn(p: string): (r: seq<string>)
    ensures |r| >= 1
    ensures forall k :: 0 <= k < |r| ==> '/' !in r[k]
    decreases |p|
  {
    if |p| == 0 then [""]
    else
      var rest := SplitOn(p[1..]);
      if p[0] == '/' then [""] + rest
      else [[p[0]] + rest[0]] + rest[1..]
  }

  /** `'/'.join(parts)`. */
  function JoinOn(parts: seq<string>): string
    decreases |parts|
  {
    if |parts| == 0 then ""
    else if |parts| == 1 then parts[0]
    else parts[0] + "/" + JoinOn(parts[1..])
  }

  /** Round trip: joining the parts of a split gives the path back. */
  lemma {:induction false} JoinSplit(p: string)
    ensures JoinOn(SplitOn(p)) == p
    decreases |p|
  {
    if |p| > 0 {
      var rest := SplitOn(p[1..]);
      JoinSplit(p[1..]);
      if p[0] == '/' {
        assert ([""] + rest)[1..] == rest;
      } else {
        var parts := [[p[0]] + rest[0]] + rest[1..];
        assert parts[1..] == rest[1..];
        if |rest| == 1 {
          assert p == [p[0]] + p[1..];
        } else {
          assert JoinOn(rest) == rest[0] + "/" + JoinOn(rest[1..]);
          assert p == [p[0]] + p[1..];
        }
      }
    }
  }

  /** Joining after the last part is split off. */
  lemma {:induction false} JoinSnoc(parts: seq<string>)
    requires |parts| >= 2
    ensures JoinOn(parts) == JoinOn(parts[..|parts| - 1]) + "/" + parts[|parts| - 1]
    decreases |parts|
  {
    if |parts| > 2 {
      JoinSnoc(parts[1..]);
      assert parts[1..][..|parts| - 2] == parts[..|parts| - 1][1..];
    }
  }

  /** A path without '/' is a single part. */
  lemma SingleNoSlash(p: string)
    requires |SplitOn(p)| == 1
    ensures SplitOn(p)[0] == p && '/' !in p
  {
    JoinSplit(p);
  }

  /** The last part of a split: the text after the last '/'. */
  function LastSegment(p: string): string
  {
    SplitOn(p)[|SplitOn(p)| - 1]
  }

  /** The last segment holds no '/', and the path is either the segment itself or ends
      with '/' followed by the segment. */
  lemma LastSegmentEndsPath(p: string)
    ensures '/' !in LastSegment(p)
    ensures p == LastSegment(p)
            || (|p| > |LastSegment(p)| && p == p[..|p| - |LastSegment(p)| - 1] + "/" + LastSegment(p))
  {
    var parts := SplitOn(p);
    JoinSplit(p);
    if |parts| >= 2 {
      JoinSnoc(parts);
      SlashBeforeLast(p, JoinOn(parts[..|parts| - 1]), parts[|parts| - 1]);
    }
  }

  /** A path built as `init + "/" + last` gives `init` back as its prefix. */
  lemma SlashBeforeLast(p: string, init: string, last: string)
    requires p == init + "/" + last
    ensures |p| > |last| && p[..|p| - |last| - 1] == init
  {
    assert p[..|init|] == init;
  }

  /** The destination handling of `mv` and `cp`: when the last part of the split is empty
      it is dropped and a directory is asked for. Returns the path to resolve and whether
      a directory was asked for. */
  function TrimSlash(p: string): (string, bool)
  {
    var parts := SplitOn(p);
    if parts[|parts| - 1] == "" then (JoinOn(parts[..|parts| - 1]), true)
    else (p, false)
  }

  /** Partner of `TrimSlash`: exactly one trailing '/' is dropped, and a directory is asked
      for exactly when the path is empty or ends in '/'. */
  lemma TrimSlashDropsOneSlash(p: string)
    ensures TrimSlash(p).1 <==> |p| == 0 || p[|p| - 1] == '/'
    ensures |p| > 0 && p[|p| - 1] == '/' ==> TrimSlash(p).0 == p[..|p| - 1]
    ensures !(|p| > 0 && p[|p| - 1] == '/') ==> TrimSlash(p).0 == p
  {
    var parts := SplitOn(p);
    JoinSplit(p);
    if |parts| == 1 {
      SingleNoSlash(p);
      if |p| > 0 {
        assert p[|p| - 1] in p;
      }
    } else {
      JoinSnoc(parts);
      var init := JoinOn(parts[..|parts| - 1]);
      var last := parts[|parts| - 1];
      assert p == init + "/" + last;
      if last == "" {
        assert p == init + "/";
        assert p[..|p| - 1] == init;
      } else {
        assert p[|p| - 1] == last[|last| - 1];
        assert last[|last| - 1] in last;
      }
    }
  }
}
