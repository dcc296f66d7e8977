/** One row of the mount table and its one-line text form. */
module FstabEntries {
  import opened Text
  import opened MountPoints
  import opened Services

  /** The six columns of a row. */
  datatype Fields = Fields(
    name: string,
    mountPoint: MountPoint,
    fsType: string,
    mountOptions: seq<string>,
    dumpFrequency: int,
    fsckPassNumber: int)

  /** A generic row, or an NFS row with the values derived after construction:
      the path on the server and the interned service. */
  datatype Entry = Plain(fields: Fields) | Nfs(fields: Fields, remotePath: string, service: Service)

  /** Why a line could not become an entry. */
  datatype ParseError =
    | TooFewFields(found: nat)
    | NotAnInteger(text: string)
    | NoHostSeparator(name: string)

  /** The dump and fsck columns when the row leaves them out. */
  const DefaultDumpFrequency := 0
  const DefaultFsckPassNumber := 0

  /** The columns in text form, in order. */
  function Columns(f: Fields): (cols: seq<string>)
    ensures |cols| == 6
  {
    [f.name, f.mountPoint.path, f.fsType, Join(f.mountOptions, ','), IntToString(f.dumpFrequency), IntToString(f.fsckPassNumber)]
  }

  /** `FstabEntry.__str__`: the columns joined by single spaces, so that
      splitting at every space gives back exactly the six columns when no
      field holds a space. */
  function Serialize(f: Fields): (s: string)
    ensures FreeOf(f, {' '}) ==> SplitOn(s, {' '}) == Columns(f)
  {
    if FreeOf(f, {' '}) then
      ColumnsAreFree(f, {' '});
      SplitOnJoin(Columns(f), ' ', {' '});
      Join(Columns(f), ' ')
    else
      Join(Columns(f), ' ')
  }

  /** No text column of the row holds a character of `chars`. */
  predicate FreeOf(f: Fields, chars: set<char>) {
    && NoneIn(f.name, chars)
    && NoneIn(f.mountPoint.path, chars)
    && NoneIn(f.fsType, chars)
    && forall i :: 0 <= i < |f.mountOptions| ==> NoneIn(f.mountOptions[i], chars)
  }

  /** Numbers are written in decimal, so they hold no character other than digits and `-`. */
  lemma {:induction false} DecimalAvoids(n: int, chars: set<char>)
    requires forall c :: c in chars ==> !IsDigit(c) && c != '-'
    ensures NoneIn(IntToString(n), chars)
  {
    var s := IntToString(n);
    forall i | 0 <= i < |s| ensures s[i] !in chars {
      assert IsDigit(s[i]) || s[i] == '-';
    }
  }

  /** When no field holds one of `chars` (none of them a digit, `-` or `,`),
      no column of the text form does either. */
  lemma ColumnsAreFree(f: Fields, chars: set<char>)
    requires FreeOf(f, chars) && ',' !in chars
    requires forall c :: c in chars ==> !IsDigit(c) && c != '-'
    ensures forall i :: 0 <= i < 6 ==> NoneIn(Columns(f)[i], chars)
  {
    JoinChars(f.mountOptions, ',', chars);
    DecimalAvoids(f.dumpFrequency, chars);
    DecimalAvoids(f.fsckPassNumber, chars);
  }
}
