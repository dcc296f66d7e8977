/** The mount table: comment and whitespace cleanup of each line, and the
    load of a whole table from its lines. */
module FstabFile {
  import opened Wrappers
  import opened Text
  import opened Services
  import opened FstabEntries
  import opened EntryBuilder

  /** `FstabBuilder.cleanup_line`: drops everything from the first `#` on,
      then strips surrounding whitespace. */
  function CleanupLine(line: string): (r: string)
    ensures r == [] || (r[0] !in Whitespace && r[|r| - 1] !in Whitespace)
  {
    Strip(SplitOn(line, {'#'})[0])
  }

  /** A cleaned line holds no `#` and no whitespace at either end. */
  lemma CleanupIsClean(line: string)
    ensures NoneIn(CleanupLine(line), {'#'})
    ensures CleanupLine(line) == [] || (CleanupLine(line)[0] !in Whitespace && CleanupLine(line)[|CleanupLine(line)| - 1] !in Whitespace)
  {
    SplitOnPiecesAreFree(line, {'#'});
    StripKeepsOut(SplitOn(line, {'#'})[0], {'#'});
  }

  /** A cleaned line is the part before the first `#`, stripped. */
  lemma CleanupIsStrippedPrefix(line: string, k: nat)
    requires k <= |line| && NoneIn(line[..k], {'#'}) && (k == |line| || line[k] == '#')
    ensures CleanupLine(line) == Strip(line[..k])
  {
    SplitOnFirstPiece(line, {'#'}, k);
  }

  /** An example: a line that starts with `#` cleans to the empty line. */
  lemma CommentLineIsBlank(line: string)
    requires |line| > 0 && line[0] == '#'
    ensures CleanupLine(line) == ""
  {
    CleanupIsStrippedPrefix(line, 0);
  }

  /** Cleaning a cleaned line changes nothing. */
  lemma CleanupIdempotent(line: string)
    ensures CleanupLine(CleanupLine(line)) == CleanupLine(line)
  {
    var c := CleanupLine(line);
    CleanupIsClean(line);
    assert c[..|c|] == c;
    SplitOnFirstPiece(c, {'#'}, |c|);
    StripOfStripped(c);
  }

  /** The loaded table; `Fstab.__iter__` yields `entries` as stored. */
  datatype Fstab = Fstab(entries: seq<Entry>)

  /** The cleaned lines that are not empty, in file order. */
  function Meaningful(lines: seq<string>): (r: seq<string>)
    ensures |r| <= |lines|
    decreases |lines|
  {
    if |lines| == 0 then []
    else (if |CleanupLine(lines[0])| == 0 then [] else [CleanupLine(lines[0])]) + Meaningful(lines[1..])
  }

  /** `entries` put in front of a result's entries; a failure stays a failure. */
  function Prepend(entries: seq<Entry>, r: Result<seq<Entry>, ParseError>): Result<seq<Entry>, ParseError> {
    if r.Success? then Success(entries + r.value) else r
  }

  /** The entry of `cleaned` in front of the entries of the later lines; a
      failure of `cleaned` comes first. */
  function ParseThen(cleaned: string, rest: Result<seq<Entry>, ParseError>): Result<seq<Entry>, ParseError> {
    match ParseLine(cleaned)
    case Failure(e) => Failure(e)
    case Success(entry) => Prepend([entry], rest)
  }

  /** `from_file` over given lines: one entry per line that does not clean to
      the empty line, and the first line that fails to parse fails the load. */
  function ParseTable(lines: seq<string>): (r: Result<seq<Entry>, ParseError>)
    ensures r.Success? ==> |r.value| <= |lines|
    decreases |lines|
  {
    if |lines| == 0 then Success([])
    else
      var cleaned := CleanupLine(lines[0]);
      if |cleaned| == 0 then ParseTable(lines[1..]) else ParseThen(cleaned, ParseTable(lines[1..]))
  }

  /** Reference definition: every line of `cleaned` parsed, in order, with the
      first failure as the result. */
  function ParseAll(cleaned: seq<string>): Result<seq<Entry>, ParseError>
    decreases |cleaned|
  {
    if |cleaned| == 0 then Success([]) else ParseThen(cleaned[0], ParseAll(cleaned[1..]))
  }

  /** Loading a table is parsing its meaningful lines. */
  lemma {:induction false} ParseTableIsParseAll(lines: seq<string>)
    ensures ParseTable(lines) == ParseAll(Meaningful(lines))
    decreases |lines|
  {
    if |lines| > 0 {
      var c, rest := CleanupLine(lines[0]), lines[1..];
      ParseTableIsParseAll(rest);
      if |c| == 0 {
        assert Meaningful(lines) == Meaningful(rest);
        assert ParseTable(lines) == ParseTable(rest);
      } else {
        var m := Meaningful(lines);
        assert m == [c] + Meaningful(rest);
        assert m[0] == c && m[1..] == Meaningful(rest);
        assert ParseAll(m) == ParseThen(c, ParseAll(Meaningful(rest)));
        assert ParseTable(lines) == ParseThen(c, ParseTable(rest));
      }
    }
  }

  /** All meaningful lines parse, with one entry per line in order, exactly
      when the whole load succeeds. */
  lemma {:induction false} ParseAllSucceeds(cleaned: seq<string>)
    ensures ParseAll(cleaned).Success? <==> forall i :: 0 <= i < |cleaned| ==> ParseLine(cleaned[i]).Success?
    ensures ParseAll(cleaned).Success? ==>
      |ParseAll(cleaned).value| == |cleaned| &&
      forall i :: 0 <= i < |cleaned| ==> ParseLine(cleaned[i]) == Success(ParseAll(cleaned).value[i])
    decreases |cleaned|
  {
    if |cleaned| > 0 {
      var head, rest := cleaned[0], cleaned[1..];
      ParseAllSucceeds(rest);
      var first, tail := ParseLine(head), ParseAll(rest);
      assert ParseAll(cleaned) == ParseThen(head, tail);
      if first.Failure? {
        assert ParseAll(cleaned).Failure?;
      } else if tail.Failure? {
        assert ParseAll(cleaned).Failure?;
        var k :| 0 <= k < |rest| && ParseLine(rest[k]).Failure?;
        assert cleaned[k + 1] == rest[k];
      } else {
        var all := ParseAll(cleaned).value;
        assert all == [first.value] + tail.value;
        forall i | 0 < i < |cleaned| ensures ParseLine(cleaned[i]) == Success(all[i]) {
          assert cleaned[i] == rest[i - 1] && all[i] == tail.value[i - 1];
        }
      }
    }
  }

  /** The first line that fails decides the error of the load. */
  lemma {:induction false} ParseAllFirstFailure(cleaned: seq<string>, k: nat)
    requires k < |cleaned| && ParseLine(cleaned[k]).Failure?
    requires forall i :: 0 <= i < k ==> ParseLine(cleaned[i]).Success?
    ensures ParseAll(cleaned) == Failure(ParseLine(cleaned[k]).error)
    decreases k
  {
    if k > 0 {
      forall i | 0 <= i < k - 1 ensures ParseLine(cleaned[1..][i]).Success? {
        assert cleaned[1..][i] == cleaned[i + 1];
      }
      ParseAllFirstFailure(cleaned[1..], k - 1);
    }
  }

  /** One entry per meaningful line, in file order, when the load succeeds;
      otherwise no table at all. */
  lemma TableEntriesFollowLines(lines: seq<string>)
    ensures ParseTable(lines).Success? <==> forall i :: 0 <= i < |Meaningful(lines)| ==> ParseLine(Meaningful(lines)[i]).Success?
    ensures ParseTable(lines).Success? ==>
      |ParseTable(lines).value| == |Meaningful(lines)| &&
      forall i :: 0 <= i < |Meaningful(lines)| ==> ParseLine(Meaningful(lines)[i]) == Success(ParseTable(lines).value[i])
  {
    ParseTableIsParseAll(lines);
    ParseAllSucceeds(Meaningful(lines));
  }

  /** A line that cleans to the empty line changes nothing. */
  lemma {:induction false} BlankLineIgnored(before: seq<string>, blank: string, after: seq<string>)
    requires CleanupLine(blank) == ""
    ensures ParseTable(before + [blank] + after) == ParseTable(before + after)
    decreases |before|
  {
    if |before| == 0 {
      assert before + [blank] + after == [blank] + after;
      assert ([blank] + after)[1..] == after;
      assert before + after == after;
    } else {
      var x := before + [blank] + after;
      var y := before + after;
      assert x[0] == y[0] == before[0];
      assert x[1..] == before[1..] + [blank] + after;
      assert y[1..] == before[1..] + after;
      BlankLineIgnored(before[1..], blank, after);
    }
  }

  lemma ParseTableStep(lines: seq<string>, i: nat)
    requires i < |lines|
    ensures ParseTable(lines[i..]) ==
      if |CleanupLine(lines[i])| == 0 then ParseTable(lines[i + 1..])
      else ParseThen(CleanupLine(lines[i]), ParseTable(lines[i + 1..]))
  {
    assert lines[i..][0] == lines[i] && lines[i..][1..] == lines[i + 1..];
  }

  lemma PrependTwice(a: seq<Entry>, b: seq<Entry>, r: Result<seq<Entry>, ParseError>)
    ensures Prepend(a, Prepend(b, r)) == Prepend(a + b, r)
  {
    if r.Success? {
      assert a + (b + r.value) == (a + b) + r.value;
    }
  }

  lemma ParseThenOf(cleaned: string, rest: Result<seq<Entry>, ParseError>, entry: Result<Entry, ParseError>)
    requires entry == ParseLine(cleaned)
    ensures ParseThen(cleaned, rest) == if entry.Failure? then Failure(entry.error) else Prepend([entry.value], rest)
  {
  }

  /** `FstabBuilder.from_file` over the given lines: the loop that cleans each
      line, skips the empty ones and appends the parsed entries. */
  method FromLines(lines: seq<string>, cache: ServiceCache) returns (r: Result<Fstab, ParseError>)
    requires cache.Interned()
    modifies cache
    ensures cache.Interned() && cache.memo == old(cache.memo)
    ensures r.Success? <==> ParseTable(lines).Success?
    ensures r.Success? ==> r.value.entries == ParseTable(lines).value
    ensures r.Failure? ==> r.error == ParseTable(lines).error
    ensures old(cache.registry).Keys <= cache.registry.Keys
  {
    var entries: seq<Entry> := [];
    var i := 0;
    assert lines[0..] == lines;
    assert ParseTable(lines).Success? ==> [] + ParseTable(lines).value == ParseTable(lines).value;
    while i < |lines|
      invariant 0 <= i <= |lines|
      invariant cache.Interned() && cache.memo == old(cache.memo)
      invariant ParseTable(lines) == Prepend(entries, ParseTable(lines[i..]))
      invariant old(cache.registry).Keys <= cache.registry.Keys
    {
      ParseTableStep(lines, i);
      var cleaned := CleanupLine(lines[i]);
      if |cleaned| == 0 {
        assert ParseTable(lines[i..]) == ParseTable(lines[i + 1..]);
      } else {
        var entry := FromLine(cleaned, cache);
        ParseThenOf(cleaned, ParseTable(lines[i + 1..]), entry);
        if entry.Failure? {
          assert ParseTable(lines) == Failure(entry.error);
          r := Failure(entry.error);
          return;
        }
        PrependTwice(entries, [entry.value], ParseTable(lines[i + 1..]));
        entries := entries + [entry.value];
      }
      i := i + 1;
    }
    assert lines[i..] == [];
    assert ParseTable(lines) == Success(entries + []);
    assert entries + [] == entries;
    r := Success(Fstab(entries));
  }
}
