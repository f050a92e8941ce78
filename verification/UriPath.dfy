/** The path of a request as repeated options, and its rebuilding for every block (message.go:431-435,
    518-526; common.go:299). */
module UriPath {
  import opened Prelude
  import opened Options

  const SLASH: byte := 47

  function Split(s: seq<byte>): (parts: seq<seq<byte>>)
    ensures |parts| > 0
  {
    if s == [] then [[]]
    else
      var rest := Split(s[1..]);
      if s[0] == SLASH then [[]] + rest else [[s[0]] + rest[0]] + rest[1..]
  }

  function Join(parts: seq<seq<byte>>): seq<byte> {
    if parts == [] then [] else if |parts| == 1 then parts[0] else parts[0] + [SLASH] + Join(parts[1..])
  }

  function NonEmpty(parts: seq<seq<byte>>): seq<seq<byte>> {
    if parts == [] then []
    else if parts[0] != [] then [parts[0]] + NonEmpty(parts[1..])
    else NonEmpty(parts[1..])
  }

  function Segments(opts: seq<Opt>): seq<seq<byte>> {
    if opts == [] then [] else [StringValue(opts[0].value)] + Segments(opts[1..])
  }

  function GetUriPath(opts: seq<Opt>): seq<byte> { [SLASH] + Join(Segments(GetOptions(opts, URI_PATH))) }

  function PathOptions(parts: seq<seq<byte>>): seq<Opt> {
    if parts == [] then [] else [Opt(URI_PATH, Text(parts[0]))] + PathOptions(parts[1..])
  }

  function SetUriPath(opts: seq<Opt>, path: seq<byte>): seq<Opt> { opts + PathOptions(NonEmpty(Split(path))) }

  lemma {:induction false} PathOptionsByCode(parts: seq<seq<byte>>, code: nat)
    ensures GetOptions(PathOptions(parts), code) == if code == URI_PATH then PathOptions(parts) else []
    ensures Segments(PathOptions(parts)) == parts
  {
    if parts != [] { PathOptionsByCode(parts[1..], code); }
  }

  /** The segments a message has after its path was taken apart and put together once. */
  function Rebuild(parts: seq<seq<byte>>): seq<seq<byte>> { NonEmpty(Split([SLASH] + Join(parts))) }

  predicate IsSegment(part: seq<byte>) { part != [] && SLASH !in part }

  lemma {:induction false} SplitAtSlash(part: seq<byte>, rest: seq<byte>)
    requires SLASH !in part
    ensures Split(part + [SLASH] + rest) == [part] + Split(rest)
    ensures Split(part) == [part]
  {
    if part == [] {
      assert part + [SLASH] + rest == [SLASH] + rest;
      assert ([SLASH] + rest)[1..] == rest;
    } else {
      assert (part + [SLASH] + rest)[1..] == part[1..] + [SLASH] + rest;
      SplitAtSlash(part[1..], rest);
      assert part == [part[0]] + part[1..];
    }
  }

  lemma {:induction false} SplitHasNoSlash(s: seq<byte>)
    ensures forall i :: 0 <= i < |Split(s)| ==> SLASH !in Split(s)[i]
  {
    if s != [] { SplitHasNoSlash(s[1..]); }
  }

  lemma {:induction false} SplitJoin(parts: seq<seq<byte>>)
    requires parts != [] && forall i :: 0 <= i < |parts| ==> SLASH !in parts[i]
    ensures Split(Join(parts)) == parts
  {
    SplitAtSlash(parts[0], if |parts| == 1 then [] else Join(parts[1..]));
    if |parts| > 1 { SplitJoin(parts[1..]); }
  }

  lemma {:induction false} NonEmptyShape(parts: seq<seq<byte>>)
    ensures forall part :: part in NonEmpty(parts) <==> part in parts && part != []
    ensures (forall i :: 0 <= i < |parts| ==> parts[i] != []) ==> NonEmpty(parts) == parts
  {
    if parts != [] { NonEmptyShape(parts[1..]); }
  }

  lemma RebuiltAreSegments(parts: seq<seq<byte>>)
    ensures forall part :: part in Rebuild(parts) ==> IsSegment(part)
  {
    var split := Split([SLASH] + Join(parts));
    SplitHasNoSlash([SLASH] + Join(parts));
    NonEmptyShape(split);
  }

  /** A path comes through rebuilding unchanged exactly when its segments are segments: not empty, no slash. */
  lemma RebuildKeeps(parts: seq<seq<byte>>)
    ensures Rebuild(parts) == parts <==> forall part :: part in parts ==> IsSegment(part)
  {
    RebuiltAreSegments(parts);
    assert ([SLASH] + Join(parts))[1..] == Join(parts);
    var split := Split(Join(parts));
    assert Rebuild(parts) == NonEmpty([[]] + split) == NonEmpty(split) by { assert ([[]] + split)[1..] == split; }
    if forall part :: part in parts ==> IsSegment(part) {
      if parts == [] {
        assert split == [[]] && split[1..] == [] && NonEmpty(split) == [];
      } else {
        assert forall i :: 0 <= i < |parts| ==> IsSegment(parts[i]);
        SplitJoin(parts);
      }
      NonEmptyShape(parts);
    }
  }

  /** However odd the options it starts from, a path is rebuilt once and for all. */
  lemma RebuildIdempotent(parts: seq<seq<byte>>)
    ensures Rebuild(Rebuild(parts)) == Rebuild(parts)
  {
    RebuiltAreSegments(parts);
    RebuildKeeps(Rebuild(parts));
  }

  /** The pieces of one segment after the other: each cut at its slashes, the empty ones left out. */
  function Pieces(parts: seq<seq<byte>>): seq<seq<byte>> {
    if parts == [] then [] else NonEmpty(Split(parts[0])) + Pieces(parts[1..])
  }

  lemma {:induction false} SplitConcatenation(a: seq<byte>, b: seq<byte>)
    ensures Split(a + [SLASH] + b) == Split(a) + Split(b)
  {
    if a == [] {
      assert a + [SLASH] + b == [SLASH] + b;
      assert ([SLASH] + b)[1..] == b;
    } else {
      assert (a + [SLASH] + b)[1..] == a[1..] + [SLASH] + b;
      SplitConcatenation(a[1..], b);
    }
  }

  lemma {:induction false} NonEmptyConcatenation(a: seq<seq<byte>>, b: seq<seq<byte>>)
    ensures NonEmpty(a + b) == NonEmpty(a) + NonEmpty(b)
  {
    if a == [] {
      assert a + b == b;
    } else {
      assert (a + b)[0] == a[0] && (a + b)[1..] == a[1..] + b;
      NonEmptyConcatenation(a[1..], b);
    }
  }

  lemma {:induction false} JoinedPieces(parts: seq<seq<byte>>)
    ensures NonEmpty(Split(Join(parts))) == Pieces(parts)
  {
    if |parts| == 1 {
      assert parts[1..] == [];
    } else if parts != [] {
      SplitConcatenation(parts[0], Join(parts[1..]));
      NonEmptyConcatenation(Split(parts[0]), Split(Join(parts[1..])));
      JoinedPieces(parts[1..]);
    } else {
      assert Split(Join(parts)) == [[]] && NonEmpty([[]]) == NonEmpty([[]][1..]);
    }
  }

  /** The path of a message starts with a slash, and rebuilding gives the pieces of its segments. */
  lemma PathIsPieces(opts: seq<Opt>)
    ensures GetUriPath(opts) != [] && GetUriPath(opts)[0] == SLASH
    ensures NonEmpty(Split(GetUriPath(opts))) == Pieces(Segments(GetOptions(opts, URI_PATH)))
  {
    var joined := Join(Segments(GetOptions(opts, URI_PATH)));
    assert ([SLASH] + joined)[1..] == joined;
    assert ([[]] + Split(joined))[1..] == Split(joined);
    JoinedPieces(Segments(GetOptions(opts, URI_PATH)));
  }

  /** A path option that is not a string adds nothing to the path, whatever bytes it is printed as. */
  lemma {:induction false} OnlyStringsArePath(a: seq<Opt>, o: Opt, b: seq<Opt>)
    requires !o.value.Text?
    ensures Pieces(Segments(a + [o] + b)) == Pieces(Segments(a + b))
  {
    if a == [] {
      assert a + [o] + b == [o] + b && a + b == b && ([o] + b)[1..] == b;
      assert NonEmpty([[]]) == NonEmpty([[]][1..]);
    } else {
      assert (a + [o] + b)[1..] == a[1..] + [o] + b && (a + b)[1..] == a[1..] + b;
      OnlyStringsArePath(a[1..], o, b);
    }
  }
}
