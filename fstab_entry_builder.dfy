/** `FstabEntryBuilder.from_line`: one cleaned mount-table line to an entry. */
module EntryBuilder {
  import opened Wrappers
  import opened Text
  import opened MountPoints
  import opened Services
  import opened FstabEntries
  import opened NfsEntries

  /** The separators of the pattern `"\t| "`. */
  const Blanks: set<char> := {' ', '\t'}

  /** The pieces that are not empty, in order. */
  function NonEmpty(pieces: seq<string>): (r: seq<string>)
    ensures forall i :: 0 <= i < |r| ==> |r[i]| > 0
    ensures |r| <= |pieces|
    decreases |pieces|
  {
    if |pieces| == 0 then []
    else (if |pieces[0]| == 0 then [] else [pieces[0]]) + NonEmpty(pieces[1..])
  }

  lemma {:induction false} NonEmptyConcat(a: seq<string>, b: seq<string>)
    ensures NonEmpty(a + b) == NonEmpty(a) + NonEmpty(b)
    decreases |a|
  {
    if |a| == 0 {
      assert a + b == b;
    } else {
      assert (a + b)[0] == a[0];
      assert (a + b)[1..] == a[1..] + b;
      NonEmptyConcat(a[1..], b);
    }
  }

  lemma {:induction false} NonEmptyOfNonEmpty(pieces: seq<string>)
    requires forall i :: 0 <= i < |pieces| ==> |pieces[i]| > 0
    ensures NonEmpty(pieces) == pieces
    decreases |pieces|
  {
    if |pieces| > 0 {
      NonEmptyOfNonEmpty(pieces[1..]);
    }
  }

  lemma NonEmptySnoc(pieces: seq<string>, i: nat)
    requires i < |pieces|
    ensures NonEmpty(pieces[..i + 1]) == NonEmpty(pieces[..i]) + if |pieces[i]| == 0 then [] else [pieces[i]]
  {
    assert pieces[..i + 1] == pieces[..i] + [pieces[i]];
    NonEmptyConcat(pieces[..i], [pieces[i]]);
    assert [pieces[i]][1..] == [];
  }

  /** The segments of a line: the pieces of `re.split("\t| ", line)` without
      the empty ones. */
  function Segments(line: string): seq<string> {
    NonEmpty(SplitOn(line, Blanks))
  }

  /** The tokenising loop of `from_line`. */
  method SplitSegments(line: string) returns (segments: seq<string>)
    ensures segments == Segments(line)
  {
    var pieces := SplitOn(line, Blanks);
    segments := [];
    var i := 0;
    while i < |pieces|
      invariant 0 <= i <= |pieces|
      invariant segments == NonEmpty(pieces[..i])
    {
      NonEmptySnoc(pieces, i);
      if |pieces[i]| != 0 {
        segments := segments + [pieces[i]];
      }
      i := i + 1;
    }
    assert pieces[..|pieces|] == pieces;
  }

  /** Length of the run of non-blank characters at the start of `s`. */
  function RunLength(s: string): (k: nat)
    ensures k <= |s| && NoneIn(s[..k], Blanks) && (k == |s| || s[k] in Blanks)
    decreases |s|
  {
    if |s| == 0 || s[0] in Blanks then 0 else 1 + RunLength(s[1..])
  }

  /** Reference definition of the segments: the maximal runs of characters
      other than space and tab, in order. */
  function Words(line: string): (r: seq<string>)
    ensures forall i :: 0 <= i < |r| ==> |r[i]| > 0 && NoneIn(r[i], Blanks)
    decreases |line|
  {
    if |line| == 0 then []
    else if line[0] in Blanks then Words(line[1..])
    else
      var k := RunLength(line);
      [line[..k]] + Words(line[k..])
  }

  /** The segments are exactly the maximal non-blank runs. */
  lemma {:induction false} SegmentsAreWords(line: string)
    ensures Segments(line) == Words(line)
    decreases |line|
  {
    if |line| == 0 {
    } else if line[0] in Blanks {
      SegmentsAreWords(line[1..]);
      assert SplitOn(line, Blanks) == [""] + SplitOn(line[1..], Blanks);
      assert ([""] + SplitOn(line[1..], Blanks))[1..] == SplitOn(line[1..], Blanks);
    } else {
      var k := RunLength(line);
      var w, rest := line[..k], line[k..];
      assert w + rest == line;
      SplitOnFreePrefix(w, rest, Blanks);
      var tail := SplitOn(rest, Blanks);
      if |rest| == 0 {
        assert tail == [""];
        assert w + tail[0] == w;
        assert SplitOn(line, Blanks) == [w];
        assert [w][1..] == [];
      } else {
        assert tail == [""] + SplitOn(rest[1..], Blanks);
        assert w + tail[0] == w && tail[1..] == SplitOn(rest[1..], Blanks);
        assert SplitOn(line, Blanks) == [w] + SplitOn(rest[1..], Blanks);
        assert ([w] + SplitOn(rest[1..], Blanks))[1..] == SplitOn(rest[1..], Blanks);
        SegmentsAreWords(rest[1..]);
        assert Words(rest) == Words(rest[1..]);
      }
    }
  }

  /** `column.split(",")`: pieces without a comma that rejoin to the column,
      which is the only such split. */
  function SplitOptions(column: string): (r: seq<string>)
    ensures Join(r, ',') == column
    ensures forall i :: 0 <= i < |r| ==> NoneIn(r[i], {','})
  {
    JoinSplitOn(column, ',');
    SplitOnPiecesAreFree(column, {','});
    SplitOn(column, {','})
  }

  /** The fields of a line after tokenising: three mandatory segments, then
      the options (the fourth segment split at every comma, none when it is
      absent), the dump frequency and the fsck pass number (0 when absent);
      further segments are ignored. */
  function ParseFields(segments: seq<string>): (r: Result<Fields, ParseError>)
    ensures r == Failure(TooFewFields(|segments|)) <==> |segments| < 3
    ensures r.Success? ==> r.value.name == segments[0] && r.value.mountPoint == NewMountPoint(segments[1]) && r.value.fsType == segments[2]
    ensures r.Success? ==> Join(r.value.mountOptions, ',') == (if |segments| > 3 then segments[3] else "")
    ensures r.Success? ==> r.value.mountOptions == if |segments| > 3 then SplitOptions(segments[3]) else []
    ensures r.Success? ==>
      if |segments| > 4 then ParseInt(segments[4]) == Some(r.value.dumpFrequency) else r.value.dumpFrequency == DefaultDumpFrequency
    ensures r.Success? ==>
      if |segments| > 5 then ParseInt(segments[5]) == Some(r.value.fsckPassNumber) else r.value.fsckPassNumber == DefaultFsckPassNumber
    ensures |segments| >= 3 ==> (r.Failure? <==> (|segments| > 4 && ParseInt(segments[4]).None?) || (|segments| > 5 && ParseInt(segments[5]).None?))
    ensures |segments| > 4 && ParseInt(segments[4]).None? ==> r == Failure(NotAnInteger(segments[4]))
    ensures |segments| > 5 && ParseInt(segments[4]).Some? && ParseInt(segments[5]).None? ==> r == Failure(NotAnInteger(segments[5]))
  {
    if |segments| < 3 then Failure(TooFewFields(|segments|))
    else
      var options := if |segments| > 3 then SplitOptions(segments[3]) else [];
      var dump :- if |segments| > 4 then IntOf(segments[4]) else Success(DefaultDumpFrequency);
      var fsck :- if |segments| > 5 then IntOf(segments[5]) else Success(DefaultFsckPassNumber);
      Success(Fields(segments[0], NewMountPoint(segments[1]), segments[2], options, dump, fsck))
  }

  /** Segments after the sixth change nothing. */
  lemma ExtraSegmentsIgnored(segments: seq<string>, extra: seq<string>)
    requires |segments| >= 6
    ensures ParseFields(segments + extra) == ParseFields(segments)
  {
    var all := segments + extra;
    assert all[0] == segments[0] && all[1] == segments[1] && all[2] == segments[2];
    assert all[3] == segments[3] && all[4] == segments[4] && all[5] == segments[5];
  }

  /** `from_line`: the fields of the segments, as an NFS entry when the type
      is `nfs` and as a generic one otherwise. */
  function ParseLine(line: string): (r: Result<Entry, ParseError>)
    ensures r.Success? ==> (r.value.Nfs? <==> r.value.fields.fsType == "nfs")
  {
    var fields :- ParseFields(Segments(line));
    if fields.fsType == "nfs" then NfsEntryOf(fields) else Success(Plain(fields))
  }

  /** The NFS variant is built exactly when the type is `nfs`; any other type,
      `nfs4` included, gives a generic entry with the same fields. */
  lemma ParseLineDispatch(line: string)
    ensures ParseFields(Segments(line)).Failure? ==> ParseLine(line) == Failure(ParseFields(Segments(line)).error)
    ensures ParseLine(line).Success? ==> ParseFields(Segments(line)) == Success(ParseLine(line).value.fields)
    ensures ParseLine(line).Success? ==> (ParseLine(line).value.Nfs? <==> ParseLine(line).value.fields.fsType == "nfs")
    ensures ParseFields(Segments(line)).Success? && ParseFields(Segments(line)).value.fsType != "nfs" ==>
      ParseLine(line) == Success(Plain(ParseFields(Segments(line)).value))
  {
  }

  /** `from_line` with the NFS service interned in `cache`. */
  method FromLine(line: string, cache: ServiceCache) returns (r: Result<Entry, ParseError>)
    requires cache.Interned()
    modifies cache
    ensures cache.Interned() && cache.memo == old(cache.memo)
    ensures r == ParseLine(line)
    ensures cache.registry == if r.Success? && r.value.Nfs? then old(cache.registry)[(r.value.service.host, r.value.service.port) := r.value.service] else old(cache.registry)
    ensures old(cache.registry).Keys <= cache.registry.Keys
    ensures r.Success? && r.value.Nfs? ==> (r.value.service.host, r.value.service.port) in cache.registry
  {
    var segments := SplitSegments(line);
    var fields := ParseFields(segments);
    if fields.Failure? {
      r := Failure(fields.error);
    } else if fields.value.fsType == "nfs" {
      var warned;
      r, warned := PostInit(fields.value, cache);
    } else {
      r := Success(Plain(fields.value));
    }
  }

  // ---------------------------------------------------------------------------
  // Round trip with the serialiser

  /** Fields as parsing produces them from a line with at least four
      segments: the text columns are non-empty and blank-free, and the
      options are the comma-separated pieces of a non-empty, blank-free
      column. */
  predicate Printable(f: Fields) {
    && |f.name| > 0 && |f.mountPoint.path| > 0 && |f.fsType| > 0
    && FreeOf(f, Blanks)
    && f.mountPoint == NewMountPoint(f.mountPoint.path)
    && |f.mountOptions| > 0
    && |Join(f.mountOptions, ',')| > 0
    && forall i :: 0 <= i < |f.mountOptions| ==> NoneIn(f.mountOptions[i], {','})
  }

  /** The serialised fields of a printable entry tokenise back into their columns. */
  lemma SegmentsOfSerialized(f: Fields)
    requires FreeOf(f, Blanks)
    requires forall i :: 0 <= i < 6 ==> |Columns(f)[i]| > 0
    ensures Segments(Serialize(f)) == Columns(f)
  {
    ColumnsAreFree(f, Blanks);
    SplitOnJoin(Columns(f), ' ', Blanks);
    NonEmptyOfNonEmpty(Columns(f));
  }

  /** Parsing the text form of printable fields gives them back. */
  lemma ParseSerialized(f: Fields)
    requires Printable(f)
    ensures ParseFields(Segments(Serialize(f))) == Success(f)
  {
    SegmentsOfSerialized(f);
    var cols := Columns(f);
    SplitOnJoin(f.mountOptions, ',', {','});
    ParseIntOfIntToString(f.dumpFrequency);
    ParseIntOfIntToString(f.fsckPassNumber);
  }

  /** The fields of every entry parsed from a line are printable once the
      line has at least four segments. */
  lemma ParsedIsPrintable(segments: seq<string>)
    requires |segments| >= 4
    requires forall i :: 0 <= i < |segments| ==> |segments[i]| > 0 && NoneIn(segments[i], Blanks)
    requires ParseFields(segments).Success?
    ensures Printable(ParseFields(segments).value)
  {
    var f := ParseFields(segments).value;
    SplitOnPiecesAreFree(segments[3], {','});
    forall i | 0 <= i < |f.mountOptions| ensures NoneIn(f.mountOptions[i], Blanks) {
      var p := f.mountOptions[i];
      SplitOnPieceInside(segments[3], {','}, i);
      forall j | 0 <= j < |p| ensures p[j] !in Blanks {
        assert p[j] in segments[3];
      }
    }
  }

  /** A piece of a split holds only characters of the split string. */
  lemma {:induction false} SplitOnPieceInside(s: string, seps: set<char>, i: nat)
    requires i < |SplitOn(s, seps)|
    ensures forall c :: c in SplitOn(s, seps)[i] ==> c in s
    decreases |s|
  {
    if |s| > 0 {
      var rest := SplitOn(s[1..], seps);
      if s[0] in seps {
        if i > 0 {
          SplitOnPieceInside(s[1..], seps, i - 1);
        }
      } else if i == 0 {
        SplitOnPieceInside(s[1..], seps, 0);
      } else {
        SplitOnPieceInside(s[1..], seps, i);
      }
    }
  }

  /** Round trip: an entry parsed from a line with at least four segments is
      parsed back from its text form, NFS part included. */
  lemma RoundTrip(line: string)
    requires |Segments(line)| >= 4 && ParseLine(line).Success?
    ensures ParseLine(Serialize(ParseLine(line).value.fields)) == ParseLine(line)
  {
    var segments := Segments(line);
    SegmentsAreWords(line);
    ParsedIsPrintable(segments);
    ParseLineDispatch(line);
    var f := ParseLine(line).value.fields;
    ParseSerialized(f);
  }

  /** Without options the fourth column is empty and drops out of the segments. */
  lemma SegmentsWithoutOptions(f: Fields)
    requires |f.name| > 0 && |f.mountPoint.path| > 0 && |f.fsType| > 0
    requires FreeOf(f, Blanks) && f.mountOptions == []
    ensures Segments(Serialize(f)) == [f.name, f.mountPoint.path, f.fsType, IntToString(f.dumpFrequency), IntToString(f.fsckPassNumber)]
  {
    var cols := Columns(f);
    ColumnsAreFree(f, Blanks);
    SplitOnJoin(cols, ' ', Blanks);
    var before, after := cols[..3], cols[4..];
    assert cols == before + [""] + after;
    NonEmptySkipsEmpty(before, after);
    assert before + after == [f.name, f.mountPoint.path, f.fsType, IntToString(f.dumpFrequency), IntToString(f.fsckPassNumber)];
  }

  /** An empty piece between pieces that are not empty drops out. */
  lemma NonEmptySkipsEmpty(before: seq<string>, after: seq<string>)
    requires forall i :: 0 <= i < |before| ==> |before[i]| > 0
    requires forall i :: 0 <= i < |after| ==> |after[i]| > 0
    ensures NonEmpty(before + [""] + after) == before + after
  {
    assert NonEmpty([""]) == [] + NonEmpty([""][1..]);
    NonEmptyConcat(before, [""]);
    NonEmptyOfNonEmpty(before);
    assert before + [] == before;
    assert NonEmpty(before + [""]) == before;
    NonEmptyConcat(before + [""], after);
    NonEmptyOfNonEmpty(after);
  }

  /** Without options the fourth column is empty, so parsing the text form
      moves the dump frequency into the options, the fsck pass number into
      the dump frequency, and the fsck pass number to 0. */
  lemma EmptyOptionsShift(f: Fields)
    requires |f.name| > 0 && |f.mountPoint.path| > 0 && |f.fsType| > 0
    requires FreeOf(f, Blanks) && f.mountPoint == NewMountPoint(f.mountPoint.path)
    requires f.mountOptions == []
    ensures ParseFields(Segments(Serialize(f))) ==
      Success(f.(mountOptions := [IntToString(f.dumpFrequency)], dumpFrequency := f.fsckPassNumber, fsckPassNumber := 0))
  {
    SegmentsWithoutOptions(f);
    DecimalAvoids(f.dumpFrequency, {','});
    SplitOnJoin([IntToString(f.dumpFrequency)], ',', {','});
    ParseIntOfIntToString(f.fsckPassNumber);
  }
}
