/** The operations of Python's `str` that the mount-table code relies on:
    `split`, `join`, `strip`, `rsplit(c, maxsplit=1)`, `int` and `str` of an integer. */
module Text {
  import opened Wrappers

  /** The characters Python's `str.strip()` removes, restricted to ASCII
      (space, the control characters tab to carriage return, and \x1c to \x1f). */
  const Whitespace: set<char> :=
    {' ', '\t', '\n', '\r', '\U{0B}', '\U{0C}', '\U{1C}', '\U{1D}', '\U{1E}', '\U{1F}'}

  predicate NoneIn(s: string, chars: set<char>) {
    forall i :: 0 <= i < |s| ==> s[i] !in chars
  }

  // ---------------------------------------------------------------------------
  // split and join

  /** The pieces between separator characters, empty pieces included: Python's
      `s.split(c)` when `seps == {c}`, and `re.split` over a class of single
      characters otherwise. */
  function SplitOn(s: string, seps: set<char>): (r: seq<string>)
    ensures |r| > 0
    decreases |s|
  {
    if |s| == 0 then [""]
    else
      var rest := SplitOn(s[1..], seps);
      if s[0] in seps then [""] + rest else [[s[0]] + rest[0]] + rest[1..]
  }

  /** Python's `c.join(parts)`. */
  function Join(parts: seq<string>, sep: char): string {
    if |parts| == 0 then ""
    else if |parts| == 1 then parts[0]
    else parts[0] + [sep] + Join(parts[1..], sep)
  }

  /** No piece of a split contains a separator. */
  lemma {:induction false} SplitOnPiecesAreFree(s: string, seps: set<char>)
    ensures forall i :: 0 <= i < |SplitOn(s, seps)| ==> NoneIn(SplitOn(s, seps)[i], seps)
    decreases |s|
  {
    if |s| > 0 {
      SplitOnPiecesAreFree(s[1..], seps);
      var rest := SplitOn(s[1..], seps);
      if s[0] !in seps {
        var first := [s[0]] + rest[0];
        assert NoneIn(rest[0], seps);
        assert NoneIn(first, seps) by {
          forall i | 0 <= i < |first| ensures first[i] !in seps {
            if i > 0 { assert first[i] == rest[0][i - 1]; }
          }
        }
      }
    }
  }

  /** A separator-free prefix sticks to the first piece of what follows it. */
  lemma {:induction false} SplitOnFreePrefix(w: string, rest: string, seps: set<char>)
    requires NoneIn(w, seps)
    ensures SplitOn(w + rest, seps) == [w + SplitOn(rest, seps)[0]] + SplitOn(rest, seps)[1..]
    decreases |w|
  {
    if |w| == 0 {
      assert w + rest == rest;
      assert w + SplitOn(rest, seps)[0] == SplitOn(rest, seps)[0];
      assert [SplitOn(rest, seps)[0]] + SplitOn(rest, seps)[1..] == SplitOn(rest, seps);
    } else {
      SplitOnFreePrefix(w[1..], rest, seps);
      assert (w + rest)[0] == w[0];
      assert (w + rest)[1..] == w[1..] + rest;
      assert [w[0]] + (w[1..] + SplitOn(rest, seps)[0]) == w + SplitOn(rest, seps)[0];
    }
  }

  /** The first piece of a split is the longest separator-free prefix. */
  lemma {:induction false} SplitOnFirstPiece(s: string, seps: set<char>, k: nat)
    requires k <= |s| && NoneIn(s[..k], seps) && (k == |s| || s[k] in seps)
    ensures SplitOn(s, seps)[0] == s[..k]
  {
    SplitOnFreePrefix(s[..k], s[k..], seps);
    assert s[..k] + s[k..] == s;
  }

  /** Joining the pieces of a split gives back the string. */
  lemma {:induction false} JoinSplitOn(s: string, c: char)
    ensures Join(SplitOn(s, {c}), c) == s
    decreases |s|
  {
    if |s| > 0 {
      var rest := SplitOn(s[1..], {c});
      JoinSplitOn(s[1..], c);
      if s[0] == c {
        assert ([""] + rest)[1..] == rest;
        assert [s[0]] + s[1..] == s;
      } else {
        var r := [[s[0]] + rest[0]] + rest[1..];
        assert r[1..] == rest[1..];
        if |rest| == 1 {
          assert Join(r, c) == [s[0]] + rest[0];
        } else {
          assert Join(rest, c) == rest[0] + [c] + Join(rest[1..], c);
        }
        assert [s[0]] + s[1..] == s;
      }
    }
  }

  /** Splitting a join of separator-free parts gives back the parts. */
  lemma {:induction false} SplitOnJoin(parts: seq<string>, c: char, seps: set<char>)
    requires |parts| > 0 && c in seps
    requires forall i :: 0 <= i < |parts| ==> NoneIn(parts[i], seps)
    ensures SplitOn(Join(parts, c), seps) == parts
    decreases |parts|
  {
    if |parts| == 1 {
      SplitOnFreePrefix(parts[0], "", seps);
      assert SplitOn("", seps) == [""];
      assert parts[0] + "" == parts[0];
    } else {
      var tail := Join(parts[1..], c);
      SplitOnJoin(parts[1..], c, seps);
      SplitOnFreePrefix(parts[0], [c] + tail, seps);
      assert ([c] + tail)[0] == c && ([c] + tail)[1..] == tail;
      assert SplitOn([c] + tail, seps) == [""] + parts[1..];
      assert parts[0] + SplitOn([c] + tail, seps)[0] == parts[0];
      assert Join(parts, c) == parts[0] + [c] + tail;
      assert parts[0] + [c] + tail == parts[0] + ([c] + tail);
      assert [parts[0]] + parts[1..] == parts;
    }
  }

  /** A character of a join is a separator or a character of one of the parts. */
  lemma {:induction false} JoinChars(parts: seq<string>, sep: char, chars: set<char>)
    requires sep !in chars
    requires forall i :: 0 <= i < |parts| ==> NoneIn(parts[i], chars)
    ensures NoneIn(Join(parts, sep), chars)
    decreases |parts|
  {
    if |parts| > 1 {
      JoinChars(parts[1..], sep, chars);
      var j := Join(parts, sep);
      var tail := Join(parts[1..], sep);
      forall i | 0 <= i < |j| ensures j[i] !in chars {
        if i < |parts[0]| {
          assert j[i] == parts[0][i];
        } else if i > |parts[0]| {
          assert j[i] == tail[i - |parts[0]| - 1];
        }
      }
    }
  }

  // ---------------------------------------------------------------------------
  // strip

  /** What is left after the longest whitespace prefix. */
  function TrimStart(s: string): (r: string)
    ensures |r| <= |s| && r == s[|s| - |r|..]
    ensures r == [] || r[0] !in Whitespace
    ensures forall i :: 0 <= i < |s| - |r| ==> s[i] in Whitespace
    decreases |s|
  {
    if |s| > 0 && s[0] in Whitespace then TrimStart(s[1..]) else s
  }

  /** What is left before the longest whitespace suffix. */
  function TrimEnd(s: string): (r: string)
    ensures |r| <= |s| && r == s[..|r|]
    ensures r == [] || r[|r| - 1] !in Whitespace
    ensures forall i :: |r| <= i < |s| ==> s[i] in Whitespace
    decreases |s|
  {
    if |s| > 0 && s[|s| - 1] in Whitespace then TrimEnd(s[..|s| - 1]) else s
  }

  /** Python's `s.strip()`. */
  function Strip(s: string): (r: string)
    ensures r == [] || (r[0] !in Whitespace && r[|r| - 1] !in Whitespace)
  {
    TrimEnd(TrimStart(s))
  }

  /** Stripping only removes characters. */
  lemma StripKeepsOut(s: string, chars: set<char>)
    requires NoneIn(s, chars)
    ensures NoneIn(Strip(s), chars)
  {
    var t := TrimStart(s);
    var r := TrimEnd(t);
    forall i | 0 <= i < |r| ensures r[i] !in chars {
      assert r[i] == t[i] == s[|s| - |t| + i];
    }
  }

  /** A string with no whitespace at either end is its own strip. */
  lemma StripOfStripped(s: string)
    requires s == [] || (s[0] !in Whitespace && s[|s| - 1] !in Whitespace)
    ensures Strip(s) == s
  {
  }

  // ---------------------------------------------------------------------------
  // int and str of an integer

  predicate IsDigit(c: char) {
    '0' as int <= c as int <= '9' as int
  }

  predicate AllDigits(s: string) {
    forall i :: 0 <= i < |s| ==> IsDigit(s[i])
  }

  function DigitChar(d: nat): (c: char)
    requires d < 10
    ensures IsDigit(c)
  {
    ('0' as int + d) as char
  }

  function DigitValue(c: char): (d: nat)
    requires IsDigit(c)
    ensures d < 10
  {
    c as int - '0' as int
  }

  /** The decimal digits of `n`, most significant first, without leading zeros. */
  function NatToString(n: nat): (r: string)
    ensures |r| > 0 && AllDigits(r)
    decreases n
  {
    if n < 10 then [DigitChar(n)] else NatToString(n / 10) + [DigitChar(n % 10)]
  }

  /** The number a string of decimal digits denotes. */
  function DigitsValue(s: string): nat
    requires AllDigits(s)
    decreases |s|
  {
    if |s| == 0 then 0 else DigitsValue(s[..|s| - 1]) * 10 + DigitValue(s[|s| - 1])
  }

  /** Python's `str(n)` for an int. */
  function IntToString(n: int): (r: string)
    ensures |r| > 0
    ensures forall i :: 0 <= i < |r| ==> IsDigit(r[i]) || r[i] == '-'
  {
    if n < 0 then "-" + NatToString(-n) else NatToString(n)
  }

  /** Python's `int(s)` on a string: an optional sign followed by one or more
      ASCII digits; anything else raises, which is `None` here. */
  function ParseInt(s: string): Option<int> {
    if |s| > 0 && (s[0] == '-' || s[0] == '+') then
      if |s| > 1 && AllDigits(s[1..]) then
        var v: int := DigitsValue(s[1..]);
        Some(if s[0] == '-' then -v else v)
      else None
    else if |s| > 0 && AllDigits(s) then Some(DigitsValue(s))
    else None
  }

  lemma {:induction false} DigitsValueOfNatToString(n: nat)
    ensures DigitsValue(NatToString(n)) == n
    decreases n
  {
    if n >= 10 {
      DigitsValueOfNatToString(n / 10);
      var s := NatToString(n);
      assert s[..|s| - 1] == NatToString(n / 10);
    }
  }

  /** `int(str(n)) == n`. */
  lemma ParseIntOfIntToString(n: int)
    ensures ParseInt(IntToString(n)) == Some(n)
  {
    if n < 0 {
      DigitsValueOfNatToString(-n);
      assert IntToString(n)[1..] == NatToString(-n);
    } else {
      DigitsValueOfNatToString(n);
    }
  }

  /** Distinct integers have distinct decimal forms. */
  lemma IntToStringInjective(a: int, b: int)
    ensures IntToString(a) == IntToString(b) ==> a == b
  {
    ParseIntOfIntToString(a);
    ParseIntOfIntToString(b);
  }

  // ---------------------------------------------------------------------------
  // split once

  /** `s.split(c, maxsplit=1)` when `c` occurs in `s`: the text before the
      first `c` and the text after it. With no `c` Python returns one piece,
      which the callers cannot unpack into two: `None` here. */
  function Partition(s: string, c: char): (r: Option<(string, string)>)
    ensures r.None? <==> c !in s
    ensures r.Some? ==> r.value.0 + [c] + r.value.1 == s && c !in r.value.0
    decreases |s|
  {
    if |s| == 0 then None
    else if s[0] == c then Some(([], s[1..]))
    else
      match Partition(s[1..], c)
      case None => assert s == [s[0]] + s[1..]; None
      case Some((h, t)) => Some(([s[0]] + h, t))
  }

  /** `s.rsplit(c, maxsplit=1)` when `c` occurs in `s`: the text before the
      last `c` and the text after it; `None` when there is no `c`. */
  function RPartition(s: string, c: char): (r: Option<(string, string)>)
    ensures r.None? <==> c !in s
    ensures r.Some? ==> r.value.0 + [c] + r.value.1 == s && c !in r.value.1
    decreases |s|
  {
    if |s| == 0 then None
    else if s[|s| - 1] == c then Some((s[..|s| - 1], []))
    else
      match RPartition(s[..|s| - 1], c)
      case None => assert s == s[..|s| - 1] + [s[|s| - 1]]; None
      case Some((h, t)) => Some((h, t + [s[|s| - 1]]))
  }

  /** The split at the first `c` is the only split into a `c`-free head, `c` and a tail. */
  lemma PartitionUnique(s: string, c: char, h: string, t: string)
    requires h + [c] + t == s && c !in h
    ensures Partition(s, c) == Some((h, t))
  {
    assert s[|h|] == c;
    var h', t' := Partition(s, c).value.0, Partition(s, c).value.1;
    assert s[|h'|] == c;
    if |h| < |h'| {
      assert false;
    } else if |h'| < |h| {
      assert false;
    }
    assert h == s[..|h|] && h' == s[..|h'|];
    assert t == s[|h| + 1..] && t' == s[|h'| + 1..];
  }

  /** The split at the last `c` is the only split into a head, `c` and a `c`-free tail. */
  lemma RPartitionUnique(s: string, c: char, h: string, t: string)
    requires h + [c] + t == s && c !in t
    ensures RPartition(s, c) == Some((h, t))
  {
    assert s[|h|] == c;
    var h', t' := RPartition(s, c).value.0, RPartition(s, c).value.1;
    assert s[|h'|] == c;
    if |h| < |h'| {
      assert false;
    } else if |h'| < |h| {
      assert false;
    }
    assert h == s[..|h|] && h' == s[..|h'|];
    assert t == s[|h| + 1..] && t' == s[|h'| + 1..];
  }
}
