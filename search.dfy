/** The free-text search endpoints. A raw query is cut at the operator bytes of
    the full-text boolean mode, fragments shorter than two bytes are dropped,
    each survivor gets a trailing `*` (prefix match), and the survivors are
    joined with single spaces. An empty result is rejected with 400 before any
    statement is built; otherwise the sanitised string is the statement's only
    bound value. The map search also cuts at `_`. */
module Search {
  import opened Http
  import opened Sql

  const SPACE: byte := 0x20
  const STAR: byte := 0x2A
  const UNDERSCORE: byte := 0x5F

  /** `+ - @ > < ( ) ~ * " %` and space. */
  const PLAYER_DELIMITERS: set<byte> :=
    {0x2B, 0x2D, 0x40, 0x3E, 0x3C, 0x28, 0x29, 0x7E, STAR, 0x22, 0x25, SPACE}

  /** The player delimiters and `_`, since map names use it as a word break. */
  const MAP_DELIMITERS: set<byte> := PLAYER_DELIMITERS + {UNDERSCORE}

  /** Shortest fragment, in bytes, that the full-text index can match. */
  const MIN_FRAGMENT_LEN := 2

  const INSUFFICIENT_QUERY := "insufficient search query"

  /** No byte of `w` is a delimiter. */
  predicate Clean(w: seq<byte>, delims: set<byte>) {
    forall i :: 0 <= i < |w| ==> w[i] !in delims
  }

  /** Splitting at every delimiter byte: k delimiters give k + 1 fragments,
      adjacent delimiters give empty fragments. */
  function Split(s: seq<byte>, delims: set<byte>): (parts: seq<seq<byte>>)
    ensures |parts| >= 1
    ensures forall i :: 0 <= i < |parts| ==> Clean(parts[i], delims)
    decreases |s|
  {
    if s == [] then [[]]
    else
      var rest := Split(s[1..], delims);
      if s[0] in delims then [[]] + rest
      else [[s[0]] + rest[0]] + rest[1..]
  }

  /** The delimiter bytes of `s`, in order. */
  function Separators(s: seq<byte>, delims: set<byte>): seq<byte>
    decreases |s|
  {
    if s == [] then []
    else (if s[0] in delims then [s[0]] else []) + Separators(s[1..], delims)
  }

  /** Puts the fragments back together with the given separators between them. */
  function Interleave(parts: seq<seq<byte>>, seps: seq<byte>): seq<byte>
    requires |parts| == |seps| + 1
    decreases |seps|
  {
    if seps == [] then parts[0]
    else parts[0] + [seps[0]] + Interleave(parts[1..], seps[1..])
  }

  /** The fragments long enough to keep, in input order. */
  function Survivors(parts: seq<seq<byte>>): (r: seq<seq<byte>>)
    ensures |r| <= |parts|
    ensures forall i :: 0 <= i < |r| ==> |r[i]| >= MIN_FRAGMENT_LEN
  {
    if parts == [] then []
    else (if |parts[0]| >= MIN_FRAGMENT_LEN then [parts[0]] else []) + Survivors(parts[1..])
  }

  /** Each word with the prefix-match wildcard appended. */
  function Starred(words: seq<seq<byte>>): (r: seq<seq<byte>>)
    ensures |r| == |words|
    ensures forall i :: 0 <= i < |r| ==> r[i] == words[i] + [STAR]
  {
    if words == [] then [] else [words[0] + [STAR]] + Starred(words[1..])
  }

  /** The words joined with one space between neighbours. */
  function JoinSpace(words: seq<seq<byte>>): (r: seq<byte>)
    ensures |words| > 0 ==> words[0] <= r
    ensures |words| > 1 ==> |words[0]| < |r| && r[|words[0]|] == SPACE
  {
    if |words| == 0 then []
    else if |words| == 1 then words[0]
    else words[0] + [SPACE] + JoinSpace(words[1..])
  }

  /** Every fragment is shorter than the minimum, so none survives. */
  predicate AllShort(parts: seq<seq<byte>>) {
    forall i :: 0 <= i < |parts| ==> |parts[i]| < MIN_FRAGMENT_LEN
  }

  /** The sanitising pipeline for one delimiter set. */
  function Sanitise(query: seq<byte>, delims: set<byte>): (out: seq<byte>)
    ensures out == [] <==> AllShort(Split(query, delims))
  {
    var parts := Split(query, delims);
    var words := Survivors(parts);
    SurvivorsEmpty(parts);
    StarredJoinLength(words);
    JoinSpace(Starred(words))
  }

  /** The sanitiser together with its emptiness test. */
  function SanitiseQuery(query: seq<byte>, delims: set<byte>): (r: Result<seq<byte>, HttpError>)
    ensures r.Failure? <==> Survivors(Split(query, delims)) == []
    ensures r.Failure? ==> r.error == BadRequest(INSUFFICIENT_QUERY) && r.error.Status() == 400
    ensures r.Success? ==> r.value == Sanitise(query, delims) && |r.value| >= MIN_FRAGMENT_LEN + 1
  {
    var out := Sanitise(query, delims);
    SurvivorsEmpty(Split(query, delims));
    StarredJoinLength(Survivors(Split(query, delims)));
    if out == [] then Failure(BadRequest(INSUFFICIENT_QUERY)) else Success(out)
  }

  /** `GET /search_players`: 400 without touching the database when nothing
      survives; otherwise one statement whose only bound value is the sanitised
      string, and a database failure becomes 500 with an empty body. */
  function SearchPlayers<Row>(query: seq<byte>, run: Statement -> Result<seq<Row>, string>)
    : (r: Result<seq<Row>, HttpError>)
    ensures SanitiseQuery(query, PLAYER_DELIMITERS).Failure? ==>
              r == Failure(BadRequest(INSUFFICIENT_QUERY))
    ensures SanitiseQuery(query, PLAYER_DELIMITERS).Success? ==>
              var st := Statement(PlayersByName, [], [Bytes(Sanitise(query, PLAYER_DELIMITERS))]);
              WellFormed(st) &&
              (run(st).Failure? ==> r == Failure(InternalServerError(""))) &&
              (run(st).Success? ==> r == Success(run(st).value))
  {
    match SanitiseQuery(query, PLAYER_DELIMITERS)
    case Failure(e) => Failure(e)
    case Success(s) =>
      match run(Statement(PlayersByName, [], [Bytes(s)]))
      case Failure(_) => Failure(InternalServerError(""))
      case Success(rows) => Success(rows)
  }

  /** `GET /search_maps`: as the player search, with `_` also a delimiter and
      the requested mode as the statement's second bound value. */
  function SearchMaps<Row>(query: seq<byte>, mode: string, run: Statement -> Result<seq<Row>, string>)
    : (r: Result<seq<Row>, HttpError>)
    ensures SanitiseQuery(query, MAP_DELIMITERS).Failure? ==>
              r == Failure(BadRequest(INSUFFICIENT_QUERY))
    ensures SanitiseQuery(query, MAP_DELIMITERS).Success? ==>
              var st := Statement(MapsByTags, [], [Bytes(Sanitise(query, MAP_DELIMITERS)), Text(mode)]);
              WellFormed(st) &&
              (run(st).Failure? ==> r == Failure(InternalServerError(""))) &&
              (run(st).Success? ==> r == Success(run(st).value))
  {
    match SanitiseQuery(query, MAP_DELIMITERS)
    case Failure(e) => Failure(e)
    case Success(s) =>
      match run(Statement(MapsByTags, [], [Bytes(s), Text(mode)]))
      case Failure(_) => Failure(InternalServerError(""))
      case Success(rows) => Success(rows)
  }

  // ---------------------------------------------------------------------------
  // Lemmas

  lemma {:induction false} StarredJoinLength(words: seq<seq<byte>>)
    ensures |Starred(words)| == |words|
    ensures words == [] <==> JoinSpace(Starred(words)) == []
    ensures words != [] ==> |JoinSpace(Starred(words))| >= |words[0]| + 1
  {
    if words != [] {
      StarredJoinLength(words[1..]);
    }
  }

  /** Split and Interleave are inverse: the fragments and the separators give
      back the query byte for byte. */
  lemma {:induction false} SplitRoundTrip(s: seq<byte>, delims: set<byte>)
    ensures |Split(s, delims)| == |Separators(s, delims)| + 1
    ensures Interleave(Split(s, delims), Separators(s, delims)) == s
    decreases |s|
  {
    if s != [] {
      SplitRoundTrip(s[1..], delims);
      var rest := Split(s[1..], delims);
      var seps := Separators(s[1..], delims);
      if s[0] in delims {
        assert Split(s, delims) == [[]] + rest;
        assert Separators(s, delims) == [s[0]] + seps;
        assert ([[]] + rest)[1..] == rest;
        assert Interleave([[]] + rest, [s[0]] + seps) == [s[0]] + Interleave(rest, seps);
        assert [s[0]] + s[1..] == s;
      } else {
        assert Separators(s, delims) == seps;
        InterleaveHead(s[0], rest, seps);
        assert [s[0]] + s[1..] == s;
      }
    }
  }

  lemma InterleaveHead(b: byte, parts: seq<seq<byte>>, seps: seq<byte>)
    requires |parts| == |seps| + 1
    ensures Interleave([[b] + parts[0]] + parts[1..], seps) == [b] + Interleave(parts, seps)
  {
    var p := [[b] + parts[0]] + parts[1..];
    if seps != [] {
      assert p[1..] == parts[1..];
    }
  }

  /** A fragment survives exactly when it is one of the input fragments and
      is at least two bytes long. */
  lemma {:induction false} SurvivorsMembers(parts: seq<seq<byte>>)
    ensures forall w :: w in Survivors(parts) <==> w in parts && |w| >= MIN_FRAGMENT_LEN
  {
    if parts != [] {
      SurvivorsMembers(parts[1..]);
      assert parts == [parts[0]] + parts[1..];
    }
  }

  lemma SurvivorsEmpty(parts: seq<seq<byte>>)
    ensures Survivors(parts) == [] <==> AllShort(parts)
    ensures Survivors(parts) != [] ==> |Survivors(parts)[0]| >= MIN_FRAGMENT_LEN
  {
    var words := Survivors(parts);
    SurvivorsMembers(parts);
    if words != [] {
      assert words[0] in words;
    } else {
      forall i | 0 <= i < |parts| ensures |parts[i]| < MIN_FRAGMENT_LEN {
        assert parts[i] in parts;
      }
    }
  }

  /** Filtering commutes with concatenation, so the survivors keep input order. */
  lemma {:induction false} SurvivorsConcat(a: seq<seq<byte>>, b: seq<seq<byte>>)
    ensures Survivors(a + b) == Survivors(a) + Survivors(b)
  {
    if a != [] {
      SurvivorsConcat(a[1..], b);
      var head := if |a[0]| >= MIN_FRAGMENT_LEN then [a[0]] else [];
      assert (a + b)[0] == a[0];
      assert (a + b)[1..] == a[1..] + b;
      calc {
        Survivors(a + b);
        head + Survivors(a[1..] + b);
        head + (Survivors(a[1..]) + Survivors(b));
        (head + Survivors(a[1..])) + Survivors(b);
      }
    } else {
      assert a + b == b;
    }
  }

  /** A clean word followed by anything: the word opens the first fragment. */
  lemma {:induction false} SplitCleanPrefix(w: seq<byte>, tail: seq<byte>, delims: set<byte>)
    requires Clean(w, delims)
    ensures Split(w + tail, delims) == [w + Split(tail, delims)[0]] + Split(tail, delims)[1..]
    decreases |w|
  {
    if w != [] {
      var t := Split(tail, delims);
      SplitCleanPrefix(w[1..], tail, delims);
      var rest := Split(w[1..] + tail, delims);
      assert rest == [w[1..] + t[0]] + t[1..];
      assert (w + tail)[0] == w[0] && w[0] !in delims;
      assert (w + tail)[1..] == w[1..] + tail;
      assert Split(w + tail, delims) == [[w[0]] + rest[0]] + rest[1..];
      assert [w[0]] + (w[1..] + t[0]) == w + t[0];
    } else {
      var t := Split(tail, delims);
      assert w + tail == tail;
      assert w + t[0] == t[0];
      assert [t[0]] + t[1..] == t;
    }
  }

  /** A clean word, a delimiter, then anything. */
  lemma SplitAtDelimiter(w: seq<byte>, d: byte, tail: seq<byte>, delims: set<byte>)
    requires Clean(w, delims) && d in delims
    ensures Split(w + [d] + tail, delims) == [w] + Split(tail, delims)
  {
    SplitCleanPrefix(w, [d] + tail, delims);
    assert w + [d] + tail == w + ([d] + tail);
    assert ([d] + tail)[1..] == tail;
    var s := Split([d] + tail, delims);
    assert ([d] + tail)[0] == d;
    assert s == [[]] + Split(tail, delims);
    assert s[0] == [] && s[1..] == Split(tail, delims);
    assert w + s[0] == w;
  }

  /** Words that hold no space are recovered by splitting their join at spaces. */
  lemma {:induction false} SplitJoinSpace(words: seq<seq<byte>>)
    requires words != []
    requires forall i :: 0 <= i < |words| ==> Clean(words[i], {SPACE})
    ensures Split(JoinSpace(words), {SPACE}) == words
    decreases |words|
  {
    if |words| == 1 {
      SplitCleanPrefix(words[0], [], {SPACE});
      assert words[0] + [] == words[0];
    } else {
      SplitJoinSpace(words[1..]);
      SplitAtDelimiter(words[0], SPACE, JoinSpace(words[1..]), {SPACE});
      assert [words[0]] + words[1..] == words;
    }
  }

  /** A word of the output never holds a space: it is a clean fragment and `*`. */
  lemma StarredClean(words: seq<seq<byte>>, delims: set<byte>)
    requires SPACE in delims
    requires forall i :: 0 <= i < |words| ==> Clean(words[i], delims)
    ensures forall i :: 0 <= i < |Starred(words)| ==> Clean(Starred(words)[i], {SPACE})
  {
    StarredJoinLength(words);
  }

  lemma SurvivorsClean(parts: seq<seq<byte>>, delims: set<byte>)
    requires forall i :: 0 <= i < |parts| ==> Clean(parts[i], delims)
    ensures forall i :: 0 <= i < |Survivors(parts)| ==>
              Clean(Survivors(parts)[i], delims) && |Survivors(parts)[i]| >= MIN_FRAGMENT_LEN
  {
    var ws := Survivors(parts);
    SurvivorsMembers(parts);
    forall i | 0 <= i < |ws| ensures Clean(ws[i], delims) && |ws[i]| >= MIN_FRAGMENT_LEN {
      assert ws[i] in ws;
      var j :| 0 <= j < |parts| && parts[j] == ws[i];
    }
  }

  /** The tokens of a non-empty output, read back by splitting at spaces, are
      exactly the surviving fragments (the input fragments of at least two
      bytes, in order), each followed by one `*`, so each is at least three
      bytes long and holds no delimiter before its `*`. */
  lemma SanitisedTokens(query: seq<byte>, delims: set<byte>)
    requires SPACE in delims
    ensures var words := Survivors(Split(query, delims));
            var tokens := Split(Sanitise(query, delims), {SPACE});
            Sanitise(query, delims) != [] ==>
              |tokens| == |words| &&
              forall i :: 0 <= i < |tokens| ==>
                tokens[i] == words[i] + [STAR] && |tokens[i]| >= MIN_FRAGMENT_LEN + 1 &&
                Clean(words[i], delims)
  {
    var words := Survivors(Split(query, delims));
    SurvivorsClean(Split(query, delims), delims);
    StarredJoinLength(words);
    if words != [] {
      StarredClean(words, delims);
      SplitJoinSpace(Starred(words));
    }
  }

  /** One step of the joined output: the first word, its `*`, and either the
      end or a space and the rest. */
  lemma JoinStarredUnfold(words: seq<seq<byte>>)
    requires words != []
    ensures |words| == 1 ==> JoinSpace(Starred(words)) == words[0] + [STAR]
    ensures |words| >= 2 ==>
              JoinSpace(Starred(words)) == words[0] + [STAR] + [SPACE] + JoinSpace(Starred(words[1..]))
    ensures |JoinSpace(Starred(words))| >= |words[0]| + 1
    ensures JoinSpace(Starred(words))[..|words[0]| + 1] == words[0] + [STAR]
  {
    var st := Starred(words);
    StarredJoinLength(words);
    StarredJoinLength(words[1..]);
    assert st == [words[0] + [STAR]] + Starred(words[1..]);
    assert st[0] == words[0] + [STAR];
    assert st[1..] == Starred(words[1..]);
  }

  /** Where a delimiter byte may stand in an output: a `*` that ends a token
      (followed by a space or by the end) or a space that separates two tokens
      (preceded by a `*`). */
  predicate DelimiterRoles(out: seq<byte>, delims: set<byte>) {
    forall i {:trigger out[i]} :: 0 <= i < |out| && out[i] in delims ==>
      (out[i] == STAR && (i + 1 == |out| || out[i + 1] == SPACE)) ||
      (out[i] == SPACE && 0 < i && out[i - 1] == STAR)
  }

  lemma RoleAt(out: seq<byte>, delims: set<byte>, i: int)
    requires DelimiterRoles(out, delims) && 0 <= i < |out| && out[i] in delims
    ensures (out[i] == STAR && (i + 1 == |out| || out[i + 1] == SPACE)) ||
            (out[i] == SPACE && 0 < i && out[i - 1] == STAR)
  {
  }

  /** A clean word and its `*` at the end of an output. */
  lemma LastTokenRoles(w: seq<byte>, delims: set<byte>)
    requires STAR in delims && Clean(w, delims)
    ensures DelimiterRoles(w + [STAR], delims)
  {
    var out := w + [STAR];
    assert forall k :: 0 <= k < |w| ==> out[k] == w[k];
    forall i | 0 <= i < |out| && out[i] in delims
      ensures out[i] == STAR && i + 1 == |out|
    {
      assert i >= |w|;
    }
    assert forall i :: 0 <= i < |out| && out[i] in delims ==> out[i] == STAR && i + 1 == |out|;
  }

  /** A clean word, its `*` and a space in front of an output that starts
      with a non-delimiter byte. */
  lemma TokenThenRestRoles(w: seq<byte>, rest: seq<byte>, delims: set<byte>)
    requires STAR in delims && SPACE in delims && Clean(w, delims)
    requires rest != [] && rest[0] !in delims && DelimiterRoles(rest, delims)
    ensures DelimiterRoles(w + [STAR] + [SPACE] + rest, delims)
  {
    var out := w + [STAR] + [SPACE] + rest;
    var n := |w|;
    assert forall k :: 0 <= k < n ==> out[k] == w[k];
    forall i | 0 <= i < |out| && out[i] in delims
      ensures (out[i] == STAR && (i + 1 == |out| || out[i + 1] == SPACE)) ||
              (out[i] == SPACE && 0 < i && out[i - 1] == STAR)
    {
      assert i >= n;
      if i == n {
        assert out[i] == STAR && out[i + 1] == SPACE;
      } else if i == n + 1 {
        assert out[i] == SPACE && out[i - 1] == STAR;
      } else {
        var j := i - n - 2;
        assert out[i] == rest[j];
        assert out[i - 1] == rest[j - 1];
        if i + 1 < |out| {
          assert out[i + 1] == rest[j + 1];
        }
        RoleAt(rest, delims, j);
      }
    }
    assert forall i :: 0 <= i < |out| && out[i] in delims ==>
      (out[i] == STAR && (i + 1 == |out| || out[i + 1] == SPACE)) ||
      (out[i] == SPACE && 0 < i && out[i - 1] == STAR);
  }

  lemma {:induction false} JoinedDelimiters(words: seq<seq<byte>>, delims: set<byte>)
    requires STAR in delims && SPACE in delims
    requires forall i :: 0 <= i < |words| ==> Clean(words[i], delims) && |words[i]| >= 1
    ensures DelimiterRoles(JoinSpace(Starred(words)), delims)
    decreases |words|
  {
    if words != [] {
      JoinStarredUnfold(words);
      assert Clean(words[0], delims);
      if |words| == 1 {
        LastTokenRoles(words[0], delims);
      } else {
        var rest := JoinSpace(Starred(words[1..]));
        JoinedDelimiters(words[1..], delims);
        JoinStarredUnfold(words[1..]);
        assert words[1..][0] == words[1];
        assert rest[0] == words[1][0] by {
          assert rest[..|words[1]| + 1][0] == rest[0];
        }
        assert Clean(words[1], delims);
        TokenThenRestRoles(words[0], rest, delims);
      }
    }
  }

  /** The only delimiter bytes of a sanitised string are the `*` suffixes and
      the single-space separators; in particular the map search never lets a
      `_` through. */
  lemma OutputDelimiters(query: seq<byte>, delims: set<byte>)
    requires STAR in delims && SPACE in delims
    ensures DelimiterRoles(Sanitise(query, delims), delims)
  {
    SurvivorsClean(Split(query, delims), delims);
    JoinedDelimiters(Survivors(Split(query, delims)), delims);
  }

  /** Splitting a sanitised string again yields each word followed by the empty
      fragment that its `*` and the following space (or the end) leave, so the
      survivors are the words again. */
  lemma {:induction false} ResplitSurvivors(words: seq<seq<byte>>, delims: set<byte>)
    requires STAR in delims && SPACE in delims
    requires forall i :: 0 <= i < |words| ==> Clean(words[i], delims) && |words[i]| >= MIN_FRAGMENT_LEN
    ensures Survivors(Split(JoinSpace(Starred(words)), delims)) == words
    decreases |words|
  {
    if words == [] {
      assert Starred(words) == [];
    } else {
      var w := words[0];
      JoinStarredUnfold(words);
      assert Clean(w, delims) && |w| >= MIN_FRAGMENT_LEN;
      if |words| == 1 {
        SplitAtDelimiter(w, STAR, [], delims);
        assert w + [STAR] + [] == w + [STAR];
        assert Split([], delims) == [[]];
        SurvivorsConcat([w], [[]]);
        assert [w] + [[]] == [w, []];
      } else {
        var rest := JoinSpace(Starred(words[1..]));
        ResplitSurvivors(words[1..], delims);
        ResplitWord(w, rest, delims);
        assert [w] + words[1..] == words;
      }
    }
  }

  /** One starred word and a space in front of the rest: the word survives,
      followed by whatever survives of the rest. */
  lemma ResplitWord(w: seq<byte>, rest: seq<byte>, delims: set<byte>)
    requires STAR in delims && SPACE in delims
    requires Clean(w, delims) && |w| >= MIN_FRAGMENT_LEN
    ensures Survivors(Split(w + [STAR] + [SPACE] + rest, delims)) == [w] + Survivors(Split(rest, delims))
  {
    assert w + [STAR] + [SPACE] + rest == w + [STAR] + ([SPACE] + rest);
    SplitAtDelimiter(w, STAR, [SPACE] + rest, delims);
    SplitAtDelimiter([], SPACE, rest, delims);
    assert [] + [SPACE] + rest == [SPACE] + rest;
    SurvivorsConcat([w], [[]] + Split(rest, delims));
    SurvivorsConcat([[]], Split(rest, delims));
  }

  /** Sanitising is idempotent for any delimiter set that holds `*` and space,
      so for both endpoints. */
  lemma SanitiseIdempotent(query: seq<byte>, delims: set<byte>)
    requires STAR in delims && SPACE in delims
    ensures Sanitise(Sanitise(query, delims), delims) == Sanitise(query, delims)
  {
    var words := Survivors(Split(query, delims));
    SurvivorsClean(Split(query, delims), delims);
    ResplitSurvivors(words, delims);
  }

  /** An accepted query, sanitised again, is accepted unchanged. */
  lemma SanitiseQueryIdempotent(query: seq<byte>, delims: set<byte>)
    requires STAR in delims && SPACE in delims
    requires SanitiseQuery(query, delims).Success?
    ensures SanitiseQuery(SanitiseQuery(query, delims).value, delims) == SanitiseQuery(query, delims)
  {
    SanitiseIdempotent(query, delims);
  }

  /** A one-byte word, a space, an operator, then a clean word: only the last
      word survives. */
  lemma ShortWordOperatorWord(a: seq<byte>, op: byte, w: seq<byte>, delims: set<byte>)
    requires |a| < MIN_FRAGMENT_LEN && Clean(a, delims) && SPACE in delims && op in delims
    ensures Survivors(Split(a + [SPACE] + ([op] + w), delims)) == Survivors(Split(w, delims))
  {
    SplitAtDelimiter([], op, w, delims);
    assert [] + [op] + w == [op] + w;
    SplitAtDelimiter(a, SPACE, [op] + w, delims);
    SurvivorsConcat([a, []], Split(w, delims));
    assert Survivors([a, []]) == [];
  }

  lemma ShortWordOperatorTwoWords(a: seq<byte>, op: byte, b: seq<byte>, sep: byte, c: seq<byte>, delims: set<byte>)
    requires |a| < MIN_FRAGMENT_LEN && Clean(a, delims) && SPACE in delims && op in delims
    requires Clean(b, delims) && sep in delims && Clean(c, delims)
    requires |b| >= MIN_FRAGMENT_LEN && |c| >= MIN_FRAGMENT_LEN
    ensures SanitiseQuery(a + [SPACE] + ([op] + (b + [sep] + c)), delims)
            == Success(b + [STAR] + [SPACE] + (c + [STAR]))
  {
    SplitCleanPrefix(c, [], delims);
    assert c + [] == c;
    SplitAtDelimiter(b, sep, c, delims);
    ShortWordOperatorWord(a, op, b + [sep] + c, delims);
    SurvivorsConcat([b], [c]);
    assert Survivors([b, c]) == [b, c];
    JoinStarredUnfold([b, c]);
    JoinStarredUnfold([c]);
    assert [b, c][1..] == [c];
  }

  lemma ShortWordOperatorOneWord(a: seq<byte>, op: byte, w: seq<byte>, delims: set<byte>)
    requires |a| < MIN_FRAGMENT_LEN && Clean(a, delims) && SPACE in delims && op in delims
    requires Clean(w, delims) && |w| >= MIN_FRAGMENT_LEN
    ensures SanitiseQuery(a + [SPACE] + ([op] + w), delims) == Success(w + [STAR])
  {
    SplitCleanPrefix(w, [], delims);
    assert w + [] == w;
    ShortWordOperatorWord(a, op, w, delims);
    assert Survivors([w]) == [w];
    JoinStarredUnfold([w]);
  }

  /** `a +bb_cc` in the map search: `a` is too short, `+` and `_` cut, so the
      effective query is `bb* cc*`. */
  lemma MapSearchExample()
    ensures SanitiseQuery([0x61, 0x20, 0x2B, 0x62, 0x62, 0x5F, 0x63, 0x63], MAP_DELIMITERS)
            == Success([0x62, 0x62, 0x2A, 0x20, 0x63, 0x63, 0x2A])
  {
    var a: seq<byte> := [0x61];
    var bb: seq<byte> := [0x62, 0x62];
    var cc: seq<byte> := [0x63, 0x63];
    assert Clean(a, MAP_DELIMITERS) && Clean(bb, MAP_DELIMITERS) && Clean(cc, MAP_DELIMITERS);
    ShortWordOperatorTwoWords(a, 0x2B, bb, UNDERSCORE, cc, MAP_DELIMITERS);
    assert a + [SPACE] + ([0x2B] + (bb + [UNDERSCORE] + cc)) == [0x61, 0x20, 0x2B, 0x62, 0x62, 0x5F, 0x63, 0x63];
    assert bb + [STAR] + [SPACE] + (cc + [STAR]) == [0x62, 0x62, 0x2A, 0x20, 0x63, 0x63, 0x2A];
  }

  /** `a +bb_cc` in the player search: `_` stays inside the fragment, so the
      effective query is `bb_cc*`. */
  lemma PlayerSearchExample()
    ensures SanitiseQuery([0x61, 0x20, 0x2B, 0x62, 0x62, 0x5F, 0x63, 0x63], PLAYER_DELIMITERS)
            == Success([0x62, 0x62, 0x5F, 0x63, 0x63, 0x2A])
  {
    var a: seq<byte> := [0x61];
    var w: seq<byte> := [0x62, 0x62, 0x5F, 0x63, 0x63];
    assert Clean(a, PLAYER_DELIMITERS) && Clean(w, PLAYER_DELIMITERS);
    ShortWordOperatorOneWord(a, 0x2B, w, PLAYER_DELIMITERS);
    assert a + [SPACE] + ([0x2B] + w) == [0x61, 0x20, 0x2B, 0x62, 0x62, 0x5F, 0x63, 0x63];
    assert w + [STAR] == [0x62, 0x62, 0x5F, 0x63, 0x63, 0x2A];
  }

  /** A lone operator leaves no fragment worth searching: 400 on both endpoints. */
  lemma LoneOperatorRejected()
    ensures SanitiseQuery([0x2B], MAP_DELIMITERS) == Failure(BadRequest(INSUFFICIENT_QUERY))
    ensures SanitiseQuery([0x2B], PLAYER_DELIMITERS) == Failure(BadRequest(INSUFFICIENT_QUERY))
  {
    assert [0x2B as byte] == [] + [0x2B] + [];
    SplitAtDelimiter([], 0x2B, [], MAP_DELIMITERS);
    SplitAtDelimiter([], 0x2B, [], PLAYER_DELIMITERS);
    assert Survivors([[], []]) == [];
  }
}
