/**
 * The format-10 working-copy administrative area: the text form of a file external
 * ("peg:revision:path") kept in an entry, the location of a file external relative to
 * the repository root, the counter of empty fields when an entry is written, and the
 * tree conflicts recorded on the directory's own entry.
 */
module AdminArea16 {
  import opened Results
  import opened Decimal
  import opened Text

  /** A revision specifier of the working-copy library. */
  datatype Revision = Undefined | Head | Working | Base | Committed | Previous | Number(n: int) | Date(millis: int)

  datatype WcError =
    | IncorrectParams   // an illegal revision kind or a malformed file-external field
    | WcCorrupt         // a tree conflict added twice

  /** The file-external fields of an entry: the path inside the repository and two revisions. */
  datatype External = External(path: Option<string>, peg: Revision, rev: Revision)

  /** A tree conflict, keyed by the name of its victim. */
  datatype TreeConflict = TreeConflict(victim: string, data: string)

  /** The revisions a file external may be stored with: HEAD or a valid revision number. */
  predicate Storable(r: Revision) {
    r == Head || (r.Number? && r.n >= 0)
  }

  /** The text of a storable revision. */
  function AsString(revision: Revision, path: string): (r: Result<string, WcError>)
    ensures r.Ok? <==> Storable(revision)
    ensures r.Err? ==> r.error == IncorrectParams
    ensures r.Ok? ==> ':' !in r.value && |r.value| > 0
    ensures revision == Head ==> r == Ok("HEAD")
    ensures revision.Number? && revision.n >= 0 ==> r.Ok? && AllDigits(r.value) && ParseNat(r.value) == revision.n
  {
    if revision == Head then Ok("HEAD")
    else if revision.Number? && revision.n >= 0 then
      ParseNatToString(revision.n);
      assert forall i | 0 <= i < |NatToString(revision.n)| :: NatToString(revision.n)[i] != ':';
      Ok(NatToString(revision.n))
    else Err(IncorrectParams)
  }

  /** The stored text of an entry's file external; no text when the entry has no external path. */
  function SerializeExternal(ext: External): (r: Result<Option<string>, WcError>)
    ensures ext.path.None? ==> r == Ok(None)
    ensures ext.path.Some? ==> (r.Ok? <==> Storable(ext.peg) && Storable(ext.rev))
    ensures r.Ok? && ext.path.Some? ==> r.value.Some?
  {
    match ext.path
    case None => Ok(None)
    case Some(path) =>
      match AsString(ext.rev, path)
      case Err(e) => Err(e)
      case Ok(revStr) =>
        match AsString(ext.peg, path)
        case Err(e) => Err(e)
        case Ok(pegStr) => Ok(Some(pegStr + ":" + revStr + ":" + path))
  }

  /** The revision a field of the stored text names: "HEAD", a revision number, or nothing usable. */
  function RevisionOf(text: string): Revision {
    if text == "HEAD" then Head
    else if |text| > 0 && AllDigits(text) then Number(ParseNat(text))
    else Undefined
  }

  /** The reading of a stored file-external text: peg up to the first ':', revision up to the next, the rest is the path. */
  function DecodeExternal(text: string): Result<External, WcError> {
    var i := IndexOf(text, ':');
    if i < 0 then Err(IncorrectParams)
    else
      var rest := text[i + 1..];
      var j := IndexOf(rest, ':');
      if j < 0 then Err(IncorrectParams)
      else Ok(External(Some(rest[j + 1..]), RevisionOf(text[..i]), RevisionOf(rest[..j])))
  }

  lemma RevisionOfAsString(r: Revision, path: string)
    requires Storable(r)
    ensures AsString(r, path).Ok? && RevisionOf(AsString(r, path).value) == r
  {
    if r.Number? {
      var t := AsString(r, path).value;
      assert t != "HEAD" by { assert IsDigit(t[0]); }
    }
  }

  lemma PrefixBeforeColon(a: string, b: string)
    requires ':' !in a
    ensures IndexOf(a + ":" + b, ':') == |a|
    ensures (a + ":" + b)[..|a|] == a && (a + ":" + b)[|a| + 1..] == b
  {
    var t := a + ":" + b;
    assert t[..|a|] == a;
    IndexOfAfter(a, ':', b);
  }

  /** Reading back the stored text restores the path, the peg revision and the revision, even when the path holds ':'. */
  lemma ExternalRoundTrip(ext: External)
    requires ext.path.Some? && Storable(ext.peg) && Storable(ext.rev)
    ensures SerializeExternal(ext).Ok? && SerializeExternal(ext).value.Some?
    ensures DecodeExternal(SerializeExternal(ext).value.value) == Ok(ext)
  {
    var path := ext.path.value;
    var revStr := AsString(ext.rev, path).value;
    var pegStr := AsString(ext.peg, path).value;
    RevisionOfAsString(ext.rev, path);
    RevisionOfAsString(ext.peg, path);
    var t := pegStr + ":" + revStr + ":" + path;
    assert t == pegStr + ":" + (revStr + ":" + path);
    PrefixBeforeColon(pegStr, revStr + ":" + path);
    PrefixBeforeColon(revStr, path);
  }

  /** The file-external fields recorded for a URL below the repository root. */
  function FileExternalLocation(url: Option<string>, pegRevision: Revision, revision: Revision, reposRoot: string): (r: External)
    requires url.Some? ==> |reposRoot| <= |url.value|
    ensures url.None? ==> r == External(None, Undefined, Undefined)
    ensures url.Some? ==> r.peg == pegRevision && r.rev == revision && r.path.Some?
    ensures url.Some? ==> var p := r.path.value;
      && |p| > 0 && p[0] == '/'
      && (p == url.value[|reposRoot|..] || p == "/" + url.value[|reposRoot|..])
  {
    match url
    case None => External(None, Undefined, Undefined)
    case Some(u) =>
      var path := u[|reposRoot|..];
      var path' := if |path| > 0 && path[0] == '/' then path else "/" + path;
      External(Some(path'), pegRevision, revision)
  }

  /** A URL that starts with the repository root is the root followed by the stored path (less the added '/'). */
  lemma FileExternalLocationRecoversUrl(url: string, reposRoot: string, peg: Revision, rev: Revision)
    requires reposRoot <= url
    ensures var p := FileExternalLocation(Some(url), peg, rev, reposRoot).path.value;
      url == reposRoot + p || url == reposRoot + p[1..]
  {
    assert url == reposRoot + url[|reposRoot|..];
  }

  /** Java's StringBuffer, consumed from the front while a stored text is read. */
  class Buffer {
    var text: string

    constructor (text: string)
      ensures this.text == text
    {
      this.text := text;
    }
  }

  /** Reads the revision before the first ':' and removes it and the ':' from the buffer. */
  method ParseRevision(buf: Buffer) returns (r: Result<Revision, WcError>)
    modifies buf
    ensures var i := IndexOf(old(buf.text), ':');
      && (i < 0 ==> r == Err(IncorrectParams) && buf.text == old(buf.text))
      && (i >= 0 ==> r == Ok(RevisionOf(old(buf.text)[..i])) && buf.text == old(buf.text)[i + 1..])
  {
    var ind := IndexOf(buf.text, ':');
    if ind == -1 {
      return Err(IncorrectParams);
    }
    var subStr := buf.text[..ind];
    var revision := if subStr == "HEAD" then Head else RevisionOf(subStr);
    buf.text := buf.text[ind + 1..];
    return Ok(revision);
  }

  /** Reads an entry's stored file-external text; no text gives undefined revisions and no path. */
  method UnserializeExternal(raw: Option<string>) returns (r: Result<External, WcError>)
    ensures raw.None? ==> r == Ok(External(None, Undefined, Undefined))
    ensures raw.Some? ==> r == DecodeExternal(raw.value)
  {
    var pegRevision, revision, path := Undefined, Undefined, None;
    if raw.Some? {
      var buffer := new Buffer(raw.value);
      var peg := ParseRevision(buffer);
      if peg.Err? {
        return Err(peg.error);
      }
      ghost var rest := buffer.text;
      var rev := ParseRevision(buffer);
      if rev.Err? {
        DecodeExternalNoSecondColon(raw.value, rest);
        return Err(rev.error);
      }
      DecodeExternalFields(raw.value, rest, buffer.text);
      pegRevision, revision, path := peg.value, rev.value, Some(buffer.text);
    }
    return Ok(External(path, pegRevision, revision));
  }

  /** A text whose part after the first ':' has no ':' of its own does not decode. */
  lemma DecodeExternalNoSecondColon(text: string, rest: string)
    requires IndexOf(text, ':') >= 0 && rest == text[IndexOf(text, ':') + 1..] && IndexOf(rest, ':') < 0
    ensures DecodeExternal(text) == Err(IncorrectParams)
  {
  }

  /** A text with two ':' decodes into the revisions before each and the path after the second. */
  lemma DecodeExternalFields(text: string, rest: string, path: string)
    requires IndexOf(text, ':') >= 0 && rest == text[IndexOf(text, ':') + 1..]
    requires IndexOf(rest, ':') >= 0 && path == rest[IndexOf(rest, ':') + 1..]
    ensures DecodeExternal(text) ==
      Ok(External(Some(path), RevisionOf(text[..IndexOf(text, ':')]), RevisionOf(rest[..IndexOf(rest, ':')])))
  {
  }

  /** The lines of an entries file being written. */
  class Writer {
    var lines: seq<string>

    constructor ()
      ensures lines == []
    {
      lines := [];
    }
  }

  function Blanks(k: nat): (b: seq<string>)
    ensures |b| == k && forall i :: 0 <= i < k ==> b[i] == ""
  {
    if k == 0 then [] else Blanks(k - 1) + [""]
  }

  /** A field is written when it is present and not empty. */
  predicate Present(value: Option<string>) {
    value.Some? && value.value != ""
  }

  /**
   * The lines a field adds when `pending` empty fields are still owed: the pending
   * blank lines and the field itself when it is written, nothing otherwise.
   */
  function FieldLines(value: Option<string>, pending: nat): (ls: seq<string>)
    ensures |ls| == (if Present(value) then pending + 1 else 0)
    ensures Present(value) ==> ls[pending] == value.value && forall i :: 0 <= i < pending ==> ls[i] == ""
  {
    if Present(value) then Blanks(pending) + [value.value] else []
  }

  /** The empty fields owed after a field: none once it is written, one more otherwise. */
  function PendingAfter(value: Option<string>, pending: nat): nat {
    if Present(value) then 0 else pending + 1
  }

  /**
   * Writes a field unless it is absent or empty; a written field is preceded by the
   * empty fields still pending. Answers whether the field was written.
   */
  method WriteString(w: Writer, value: Option<string>, emptyFields: nat) returns (written: bool)
    modifies w
    ensures written <==> Present(value)
    ensures w.lines == old(w.lines) + FieldLines(value, emptyFields)
  {
    written := value.Some? && value.value != "";
    if written {
      w.lines := w.lines + Blanks(emptyFields) + [value.value];
    }
  }

  /**
   * Writes the tree-conflict field and the file-external field of an entry after the
   * fields of the older formats, which left `emptyFields` fields pending. The tree
   * conflict is written before the external is serialized, so a failing external leaves
   * that line behind. Every field is either on a line of its own or still counted as
   * pending.
   */
  method WriteExtraOptions(w: Writer, treeConflictData: Option<string>, ext: External, emptyFields: nat)
    returns (r: Result<nat, WcError>)
    modifies w
    ensures r.Err? <==> SerializeExternal(ext).Err?
    ensures r.Err? ==> r.error == SerializeExternal(ext).error && w.lines == old(w.lines) + FieldLines(treeConflictData, emptyFields)
    ensures r.Ok? ==>
      w.lines == old(w.lines) + FieldLines(treeConflictData, emptyFields) +
                 FieldLines(SerializeExternal(ext).value, PendingAfter(treeConflictData, emptyFields))
    ensures r.Ok? ==>
      r.value == (if Present(SerializeExternal(ext).value) then 0 else if Present(treeConflictData) then 1 else emptyFields + 2)
    ensures r.Ok? ==> |w.lines| + r.value == |old(w.lines)| + emptyFields + 2
  {
    var pending := emptyFields;
    var wrote := WriteString(w, treeConflictData, pending);
    if wrote {
      pending := 0;
    } else {
      pending := pending + 1;
    }
    var serialized := SerializeExternal(ext);
    if serialized.Err? {
      return Err(serialized.error);
    }
    wrote := WriteString(w, serialized.value, pending);
    if wrote {
      pending := 0;
    } else {
      pending := pending + 1;
    }
    return Ok(pending);
  }

  /** The tree conflicts recorded on the directory's own entry, keyed by victim name. */
  class AdminArea {
    var treeConflicts: map<string, TreeConflict>
    var externals: map<string, External>

    constructor ()
      ensures treeConflicts == map[] && externals == map[]
    {
      treeConflicts, externals := map[], map[];
    }

    function GetTreeConflict(victim: string): (c: Option<TreeConflict>)
      reads this
      ensures c.Some? <==> victim in treeConflicts
      ensures c.Some? ==> c.value == treeConflicts[victim]
    {
      if victim in treeConflicts then Some(treeConflicts[victim]) else None
    }

    /** Records a conflict on a victim that has none yet. */
    method AddTreeConflict(conflict: TreeConflict) returns (r: Result<(), WcError>)
      modifies this
      ensures conflict.victim in old(treeConflicts) ==> r == Err(WcCorrupt) && treeConflicts == old(treeConflicts)
      ensures conflict.victim !in old(treeConflicts) ==> r == Ok(()) && treeConflicts == old(treeConflicts)[conflict.victim := conflict]
      ensures externals == old(externals)
    {
      var existing := GetTreeConflict(conflict.victim);
      if existing.Some? {
        return Err(WcCorrupt);
      }
      treeConflicts := treeConflicts[conflict.victim := conflict];
      return Ok(());
    }

    /** Removes and returns the victim's conflict, leaving the others. */
    method DeleteTreeConflict(victim: string) returns (c: Option<TreeConflict>)
      modifies this
      ensures victim in old(treeConflicts) ==> c == Some(old(treeConflicts)[victim])
      ensures victim !in old(treeConflicts) ==> c == None
      ensures treeConflicts == old(treeConflicts) - {victim}
      ensures externals == old(externals)
    {
      if victim in treeConflicts {
        c := Some(treeConflicts[victim]);
        treeConflicts := treeConflicts - {victim};
      } else {
        c := None;
      }
    }

    /** Stores the file-external location of entry `name`. */
    method SetFileExternalLocation(name: string, url: Option<string>, pegRevision: Revision, revision: Revision, reposRoot: string)
      requires url.Some? ==> |reposRoot| <= |url.value|
      modifies this
      ensures externals == old(externals)[name := FileExternalLocation(url, pegRevision, revision, reposRoot)]
      ensures treeConflicts == old(treeConflicts)
    {
      externals := externals[name := FileExternalLocation(url, pegRevision, revision, reposRoot)];
    }
  }
}
