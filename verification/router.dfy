/** Request routing (src/index.ts:60-70, 125): splitting the URL path into
    segments, choosing one of the three endpoints, reading the `excludes`
    query parameter, and the bearer-token guard. */
module Router {
  import opened Wrappers
  import opened Seqs

  // ---------------------------------------------------------------------
  // String splitting, as `String.prototype.split` with a one-character
  // separator, and its inverse `Array.prototype.join`.
  // ---------------------------------------------------------------------

  /** The pieces of `s` between occurrences of `sep`. There is always at
      least one piece, and no piece contains the separator. */
  function Split(s: string, sep: char): (parts: seq<string>)
    ensures |parts| >= 1
    ensures forall p :: p in parts ==> sep !in p
    decreases |s|
  {
    if |s| == 0 then [""]
    else
      var rest := Split(s[1..], sep);
      if s[0] == sep then [""] + rest
      else [[s[0]] + rest[0]] + rest[1..]
  }

  /** The pieces glued back together with `sep` between neighbours. */
  function Join(parts: seq<string>, sep: char): string
    decreases |parts|
  {
    if |parts| == 0 then ""
    else if |parts| == 1 then parts[0]
    else parts[0] + [sep] + Join(parts[1..], sep)
  }

  /** Splitting loses nothing: joining the pieces gives back the string. */
  lemma {:induction false} JoinSplit(s: string, sep: char)
    ensures Join(Split(s, sep), sep) == s
    decreases |s|
  {
    if |s| > 0 {
      var rest := Split(s[1..], sep);
      JoinSplit(s[1..], sep);
      if s[0] == sep {
        assert ([""] + rest)[1..] == rest;
      } else if |rest| > 1 {
        var parts := [[s[0]] + rest[0]] + rest[1..];
        assert parts[1..] == rest[1..];
        assert Join(rest, sep) == rest[0] + [sep] + Join(rest[1..], sep);
        assert s == [s[0]] + s[1..];
      } else {
        assert s == [s[0]] + s[1..];
      }
    }
  }

  /** A string without the separator is a single piece. */
  lemma {:induction false} SplitWhole(a: string, sep: char)
    requires sep !in a
    ensures Split(a, sep) == [a]
    decreases |a|
  {
    if |a| > 0 {
      SplitWhole(a[1..], sep);
      assert a == [a[0]] + a[1..];
    }
  }

  /** A separator-free prefix followed by a separator is the first piece. */
  lemma {:induction false} SplitFirstPiece(a: string, b: string, sep: char)
    requires sep !in a
    ensures Split(a + [sep] + b, sep) == [a] + Split(b, sep)
    decreases |a|
  {
    var s := a + [sep] + b;
    if |a| == 0 {
      assert s[1..] == b;
    } else {
      assert s[1..] == a[1..] + [sep] + b;
      SplitFirstPiece(a[1..], b, sep);
      assert a == [a[0]] + a[1..];
    }
  }

  /** Splitting recovers every non-empty, separator-free piece list from its
      join: together with `JoinSplit` this makes `Split` and `Join` inverse
      bijections between strings and non-empty separator-free lists. (The
      empty list is not in the image: `Split("", sep)` is `[""]`.) */
  lemma {:induction false} SplitJoin(parts: seq<string>, sep: char)
    requires |parts| >= 1
    requires forall p :: p in parts ==> sep !in p
    ensures Split(Join(parts, sep), sep) == parts
    decreases |parts|
  {
    if |parts| == 1 {
      SplitWhole(parts[0], sep);
    } else {
      SplitJoin(parts[1..], sep);
      SplitFirstPiece(parts[0], Join(parts[1..], sep), sep);
      assert parts == [parts[0]] + parts[1..];
    }
  }

  // ---------------------------------------------------------------------
  // Path segments and endpoint selection (src/index.ts:64-67, 125).
  // ---------------------------------------------------------------------

  /** `Boolean(piece)`: the empty string is falsy. */
  predicate NonEmpty(piece: string) {
    |piece| > 0
  }

  /** The non-empty `/`-separated segments of a path, in order. */
  function Segments(path: string): (segs: seq<string>)
    ensures forall seg :: seg in segs ==> |seg| > 0 && '/' !in seg
  {
    Filter(Split(path, '/'), NonEmpty)
  }

  datatype Endpoint = StationsEndpoint | StatsEndpoint | VehiclesEndpoint

  /** Only a path made of exactly one segment, `stations` or `stats`,
      selects a special endpoint; every other path lists vehicles. */
  function Select(segs: seq<string>): Endpoint {
    if |segs| == 1 && segs[0] == "stations" then StationsEndpoint
    else if |segs| == 1 && segs[0] == "stats" then StatsEndpoint
    else VehiclesEndpoint
  }

  function RouteOf(path: string): Endpoint {
    Select(Segments(path))
  }

  function Slashes(n: nat): string {
    seq(n, _ => '/')
  }

  function Blanks(n: nat): seq<string> {
    seq(n, _ => "")
  }

  lemma {:induction false} SplitSlashes(n: nat, s: string)
    ensures Split(Slashes(n) + s, '/') == Blanks(n) + Split(s, '/')
    decreases n
  {
    if n > 0 {
      var t := Slashes(n) + s;
      assert t[0] == '/';
      assert t[1..] == Slashes(n - 1) + s;
      SplitSlashes(n - 1, s);
      assert Split(t, '/') == [""] + Split(t[1..], '/');
      assert Blanks(n) == [""] + Blanks(n - 1);
    } else {
      assert Slashes(n) + s == s;
      assert Blanks(n) + Split(s, '/') == Split(s, '/');
    }
  }

  lemma {:induction false} FilterBlanks(n: nat)
    ensures Filter(Blanks(n), NonEmpty) == []
    decreases n
  {
    if n > 0 {
      assert Blanks(n)[..n - 1] == Blanks(n - 1);
      FilterBlanks(n - 1);
    }
  }

  lemma {:induction false} JoinBlanks(n: nat)
    requires n >= 1
    ensures Join(Blanks(n), '/') == Slashes(n - 1)
    decreases n
  {
    if n > 1 {
      assert Blanks(n)[1..] == Blanks(n - 1);
      JoinBlanks(n - 1);
    }
  }

  lemma {:induction false} JoinAroundWord(n: nat, w: string, m: nat)
    ensures Join(Blanks(n) + [w] + Blanks(m), '/') == Slashes(n) + w + Slashes(m)
    decreases n
  {
    var parts := Blanks(n) + [w] + Blanks(m);
    if n > 0 {
      assert parts[1..] == Blanks(n - 1) + [w] + Blanks(m);
      JoinAroundWord(n - 1, w, m);
    } else if m > 0 {
      assert parts[1..] == Blanks(m);
      JoinBlanks(m);
    } else {
      assert parts == [w];
    }
  }

  /** A piece list whose non-empty pieces are none at all is all blanks. */
  lemma {:induction false} NoWordsAreBlanks(parts: seq<string>)
    requires Filter(parts, NonEmpty) == []
    ensures parts == Blanks(|parts|)
    decreases |parts|
  {
    if |parts| > 0 {
      var init := parts[..|parts| - 1];
      NoWordsAreBlanks(init);
      assert parts == init + [parts[|parts| - 1]];
    }
  }

  /** A piece list with exactly one non-empty piece `w` is `w` between blanks. */
  lemma {:induction false} OneWordBetweenBlanks(parts: seq<string>, w: string)
    requires Filter(parts, NonEmpty) == [w]
    ensures exists n: nat, m: nat :: parts == Blanks(n) + [w] + Blanks(m)
    decreases |parts|
  {
    var init := parts[..|parts| - 1];
    var last := parts[|parts| - 1];
    assert parts == init + [last];
    if NonEmpty(last) {
      assert Filter(init, NonEmpty) == [];
      NoWordsAreBlanks(init);
      assert parts == Blanks(|init|) + [w] + Blanks(0);
    } else {
      OneWordBetweenBlanks(init, w);
      var n: nat, m: nat :| init == Blanks(n) + [w] + Blanks(m);
      assert parts == Blanks(n) + [w] + Blanks(m + 1);
    }
  }

  /** Slashes around a single word leave that word as the only segment. */
  lemma SegmentsAroundWord(n: nat, w: string, m: nat)
    requires |w| > 0 && '/' !in w
    ensures Segments(Slashes(n) + w + Slashes(m)) == [w]
  {
    var path := Slashes(n) + w + Slashes(m);
    assert path == Slashes(n) + (w + Slashes(m));
    SplitSlashes(n, w + Slashes(m));
    if m == 0 {
      assert w + Slashes(m) == w;
      SplitWhole(w, '/');
    } else {
      assert w + Slashes(m) == w + ['/'] + Slashes(m - 1);
      SplitFirstPiece(w, Slashes(m - 1), '/');
      assert Slashes(m - 1) == Slashes(m - 1) + "";
      SplitSlashes(m - 1, "");
      assert Blanks(m - 1) + [""] == Blanks(m);
    }
    assert Split(path, '/') == Blanks(n) + [w] + Blanks(m);
    FilterConcat(Blanks(n) + [w], Blanks(m), NonEmpty);
    FilterConcat(Blanks(n), [w], NonEmpty);
    FilterBlanks(n);
    FilterBlanks(m);
    assert Filter([w], NonEmpty) == [w] by {
      assert [w][..0] == [];
    }
  }

  /** A path whose only segment is `w` is `w` with slashes around it. */
  lemma WordOfSegments(path: string, w: string)
    requires Segments(path) == [w]
    ensures exists n: nat, m: nat :: path == Slashes(n) + w + Slashes(m)
  {
    OneWordBetweenBlanks(Split(path, '/'), w);
    var n: nat, m: nat :| Split(path, '/') == Blanks(n) + [w] + Blanks(m);
    JoinSplit(path, '/');
    JoinAroundWord(n, w, m);
  }

  /** The segments of a path are exactly `[w]` iff the path is `w` with
      nothing but slashes around it. */
  lemma SingleSegment(path: string, w: string)
    requires |w| > 0 && '/' !in w
    ensures Segments(path) == [w] <==> exists n: nat, m: nat :: path == Slashes(n) + w + Slashes(m)
  {
    if Segments(path) == [w] {
      WordOfSegments(path, w);
    }
    if exists n: nat, m: nat :: path == Slashes(n) + w + Slashes(m) {
      var n: nat, m: nat :| path == Slashes(n) + w + Slashes(m);
      SegmentsAroundWord(n, w, m);
    }
  }

  /** The stations listing is chosen exactly for `stations` surrounded by
      slashes only (`/stations`, `/stations/`, `//stations`, ...). */
  lemma RouteStations(path: string)
    ensures RouteOf(path) == StationsEndpoint <==>
            exists n: nat, m: nat :: path == Slashes(n) + "stations" + Slashes(m)
  {
    SingleSegment(path, "stations");
  }

  /** The statistics summary is chosen exactly for `stats` surrounded by
      slashes only. */
  lemma RouteStats(path: string)
    ensures RouteOf(path) == StatsEndpoint <==>
            exists n: nat, m: nat :: path == Slashes(n) + "stats" + Slashes(m)
  {
    SingleSegment(path, "stats");
  }

  // ---------------------------------------------------------------------
  // The `excludes` query parameter (src/index.ts:69-70).
  // ---------------------------------------------------------------------

  /** The comma-separated tokens of `excludes`; an absent parameter gives
      no tokens. */
  function ExcludeTokens(excludes: Option<string>): seq<string> {
    match excludes
    case None => []
    case Some(s) => Split(s, ',')
  }

  /** Completed trains are dropped iff some token is exactly `completed`. */
  function ExcludeCompleted(excludes: Option<string>): bool {
    "completed" in ExcludeTokens(excludes)
  }

  /** For any comma-free token list, the flag holds iff `completed` is one
      of the tokens; without the parameter it never holds. */
  lemma ExcludeCompletedIff(tokens: seq<string>)
    requires |tokens| >= 1
    requires forall t :: t in tokens ==> ',' !in t
    ensures ExcludeCompleted(Some(Join(tokens, ','))) <==> "completed" in tokens
    ensures !ExcludeCompleted(None)
  {
    SplitJoin(tokens, ',');
  }

  // ---------------------------------------------------------------------
  // The bearer-token guard (src/index.ts:60-62).
  // ---------------------------------------------------------------------

  /** The `Authorization` header must be exactly `Bearer ` and the key. */
  predicate Authorized(authorization: Option<string>, workerKey: string) {
    authorization == Some("Bearer " + workerKey)
  }
}
