/** The OS identity resolver: the `id[:version_id]` string read from the
    os-release file (distro.go, `getOS`). */
module OsIdentity {
  import opened Wrappers
  import opened GoStrings

  datatype OsError =
    | ReadFailed        // the file could not be read (`log.Fatal`)
    | IndexOutOfRange   // a line `ID` or `VERSION_ID` without `=` (`bits[1]` panics)

  const IdKey := "ID"
  const VersionIdKey := "VERSION_ID"

  /** A line whose key is one the parser reads but which has no value: the
      parser's `bits[1]` is out of range on it. */
  predicate Panics(line: string) {
    var bits := Split(line, '=');
    (bits[0] == IdKey || bits[0] == VersionIdKey) && |bits| < 2
  }

  /** Exactly the two bare key lines make the parser panic. */
  lemma PanicsIff(line: string)
    ensures Panics(line) <==> line == IdKey || line == VersionIdKey
  {
    SplitSingle(line, '=');
    if line == IdKey || line == VersionIdKey {
      assert '=' !in line;
    }
  }

  predicate AnyPanics(lines: seq<string>) {
    exists j :: 0 <= j < |lines| && Panics(lines[j])
  }

  /** The value, quotes removed, of the last line of `lines` whose key is
      `key` and that has a value: later lines override earlier ones. */
  function LastValue(lines: seq<string>, key: string): Option<string>
    decreases |lines|
  {
    if lines == [] then None
    else
      var bits := Split(lines[|lines| - 1], '=');
      if bits[0] == key && |bits| >= 2 then Some(RemoveChar(bits[1], '"'))
      else LastValue(lines[..|lines| - 1], key)
  }

  /** Whether line `line` sets `key`. */
  predicate Sets(line: string, key: string) {
    var bits := Split(line, '=');
    bits[0] == key && |bits| >= 2
  }

  /** Its value with quotes removed: the text between the first and the
      second `=`. */
  function ValueOf(line: string): string
    requires |Split(line, '=')| >= 2
  {
    RemoveChar(Split(line, '=')[1], '"')
  }

  /** An independent description of `LastValue`: it is the value of the last
      line that sets the key, and absent when no line sets it. */
  lemma {:induction false} LastValueIsLast(lines: seq<string>, key: string)
    ensures LastValue(lines, key).None? <==> forall j :: 0 <= j < |lines| ==> !Sets(lines[j], key)
    ensures LastValue(lines, key).Some? ==>
      exists i :: 0 <= i < |lines| && Sets(lines[i], key) && LastValue(lines, key).value == ValueOf(lines[i])
        && forall j :: i < j < |lines| ==> !Sets(lines[j], key)
    decreases |lines|
  {
    if lines != [] {
      var n := |lines| - 1;
      var init := lines[..n];
      LastValueIsLast(init, key);
      assert forall j :: 0 <= j < n ==> lines[j] == init[j];
      if !Sets(lines[n], key) {
        if LastValue(lines, key).Some? {
          var i :| 0 <= i < |init| && Sets(init[i], key) && LastValue(init, key).value == ValueOf(init[i])
            && forall j :: i < j < |init| ==> !Sets(init[j], key);
          assert lines[i] == init[i];
        }
      }
    }
  }

  /** A line set later overrides every earlier one. */
  lemma LaterOverrides(lines: seq<string>, line: string, key: string)
    requires Sets(line, key)
    ensures LastValue(lines + [line], key) == Some(ValueOf(line))
  {
  }

  /** A line that sets another key, or nothing, leaves the value as it was. */
  lemma OtherLineKeeps(lines: seq<string>, line: string, key: string)
    requires !Sets(line, key)
    ensures LastValue(lines + [line], key) == LastValue(lines, key)
  {
  }

  /** The identity string: `id:version_id` when both are non-empty, `id`
      when only it is, and empty otherwise. */
  function Compose(id: string, versionId: string): string {
    if id != "" && versionId != "" then id + ":" + versionId
    else if id != "" then id
    else ""
  }

  /** The outcome of parsing the file's text. */
  function Identity(content: string): Result<string, OsError> {
    var lines := Split(content, '\n');
    if AnyPanics(lines) then Err(IndexOutOfRange)
    else Ok(Compose(LastValue(lines, IdKey).GetOr(""), LastValue(lines, VersionIdKey).GetOr("")))
  }

  /** `getOS`: `osRelease` is the file's text, or `None` when it cannot be
      read. */
  method GetOS(osRelease: Option<string>) returns (r: Result<string, OsError>)
    ensures osRelease.None? ==> r == Err(ReadFailed)
    ensures osRelease.Some? ==> r == Identity(osRelease.value)
  {
    if osRelease.None? {
      return Err(ReadFailed);
    }
    var lines := Split(osRelease.value, '\n');
    var version := "";
    var versionId := "";
    var i := 0;
    while i < |lines|
      invariant 0 <= i <= |lines|
      invariant !AnyPanics(lines[..i])
      invariant version == LastValue(lines[..i], IdKey).GetOr("")
      invariant versionId == LastValue(lines[..i], VersionIdKey).GetOr("")
    {
      var line := lines[i];
      assert lines[..i + 1] == lines[..i] + [line];
      assert lines[..i + 1][..i] == lines[..i];
      var bits := Split(line, '=');
      if |bits| > 0 {
        if bits[0] == IdKey {
          if |bits| < 2 {
            assert Panics(lines[i]);
            return Err(IndexOutOfRange);
          }
          version := RemoveChar(bits[1], '"');
        }
        if bits[0] == VersionIdKey {
          if |bits| < 2 {
            assert Panics(lines[i]);
            return Err(IndexOutOfRange);
          }
          versionId := RemoveChar(bits[1], '"');
        }
      }
      assert !Panics(line);
      ghost var done := lines[..i + 1];
      assert !AnyPanics(done) by {
        forall j | 0 <= j < i + 1 ensures !Panics(done[j]) {
          if j < i { assert done[j] == lines[..i][j]; }
        }
      }
      i := i + 1;
    }
    assert lines[..i] == lines;
    r := Ok(Compose(version, versionId));
  }

  /** A line `key=value` whose value holds no `=` sets `key` to the value,
      quotes removed, and sets no other key. */
  lemma KeyValueLine(line: string, key: string, value: string)
    requires line == key + "=" + value
    requires '=' !in key && '=' !in value
    ensures Split(line, '=') == [key, value]
    ensures Sets(line, key) && ValueOf(line) == RemoveChar(value, '"')
    ensures forall other :: other != key ==> !Sets(line, other)
  {
    assert line == key + ['='] + value;
    SplitAfter(key, '=', value);
    SplitSingle(value, '=');
  }

  /** On a line with further `=`s, the value is the text between the first
      and the second `=`; the rest of the line is ignored. */
  lemma KeyValueLineMore(line: string, key: string, value: string, rest: string)
    requires line == key + "=" + value + "=" + rest
    requires '=' !in key && '=' !in value
    ensures Sets(line, key) && ValueOf(line) == RemoveChar(value, '"')
  {
    assert line == key + ['='] + (value + ['='] + rest);
    SplitAfter(key, '=', value + ['='] + rest);
    SplitAfter(value, '=', rest);
  }

  /** Only the two bare keys, not `key=value` lines, make the parser panic. */
  lemma KeyValueLineSafe(line: string, key: string, value: string)
    requires line == key + "=" + value
    ensures !Panics(line)
  {
    PanicsIff(line);
    assert line[|key|] == '=';
  }

  /** One line on its own. */
  lemma SingleLine(line: string, key: string)
    ensures LastValue([line], key) == if Sets(line, key) then Some(ValueOf(line)) else None
  {
    assert [line][..0] == [];
  }

  /** The file's text as its lines, for lines free of line breaks. */
  lemma IdentityOfLines(lines: seq<string>)
    requires |lines| >= 1
    requires forall k :: 0 <= k < |lines| ==> '\n' !in lines[k]
    ensures Identity(Join(lines, '\n')) ==
      if AnyPanics(lines) then Err(IndexOutOfRange)
      else Ok(Compose(LastValue(lines, IdKey).GetOr(""), LastValue(lines, VersionIdKey).GetOr("")))
  {
    SplitJoin(lines, '\n');
  }

  /** A file of two lines. */
  lemma IdentityOfTwo(l1: string, l2: string)
    requires '\n' !in l1 && '\n' !in l2
    requires !Panics(l1) && !Panics(l2)
    ensures Identity(l1 + "\n" + l2)
         == Ok(Compose(LastValue([l1, l2], IdKey).GetOr(""), LastValue([l1, l2], VersionIdKey).GetOr("")))
  {
    assert l1 + "\n" + l2 == l1 + ['\n'] + l2;
    SplitAfter(l1, '\n', l2);
    SplitSingle(l2, '\n');
    var lines := [l1, l2];
    assert Split(l1 + "\n" + l2, '\n') == lines;
    assert !AnyPanics(lines) by {
      forall j | 0 <= j < 2 ensures !Panics(lines[j]) {}
    }
  }

  /** Of two lines, the second wins. */
  lemma LastValueOfTwo(l1: string, l2: string, key: string)
    ensures LastValue([l1, l2], key) ==
      if Sets(l2, key) then Some(ValueOf(l2)) else if Sets(l1, key) then Some(ValueOf(l1)) else None
  {
    assert [l1, l2][..1] == [l1];
    SingleLine(l1, key);
  }

  /** The lines `ID=a` and `VERSION_ID=b`, taken apart. */
  lemma TwoKeyValueLines(l1: string, l2: string, id: string, versionId: string)
    requires l1 == IdKey + "=" + id && l2 == VersionIdKey + "=" + versionId
    requires '=' !in id && '\n' !in id && '=' !in versionId && '\n' !in versionId
    ensures LastValue([l1, l2], IdKey) == Some(RemoveChar(id, '"'))
    ensures LastValue([l1, l2], VersionIdKey) == Some(RemoveChar(versionId, '"'))
    ensures !Panics(l1) && !Panics(l2) && '\n' !in l1 && '\n' !in l2
  {
    KeyValueLine(l1, IdKey, id);
    KeyValueLine(l2, VersionIdKey, versionId);
    KeyValueLineSafe(l1, IdKey, id);
    KeyValueLineSafe(l2, VersionIdKey, versionId);
    LastValueOfTwo(l1, l2, IdKey);
    LastValueOfTwo(l1, l2, VersionIdKey);
  }

  /** `ID=a` and `VERSION_ID=b` lines give `a:b`, every `"` removed from both. */
  lemma BothPresent(id: string, versionId: string, content: string)
    requires '=' !in id && '\n' !in id && '=' !in versionId && '\n' !in versionId
    requires RemoveChar(id, '"') != "" && RemoveChar(versionId, '"') != ""
    requires content == "ID=" + id + "\nVERSION_ID=" + versionId
    ensures Identity(content) == Ok(RemoveChar(id, '"') + ":" + RemoveChar(versionId, '"'))
  {
    var l1, l2 := IdKey + "=" + id, VersionIdKey + "=" + versionId;
    TwoKeyValueLines(l1, l2, id, versionId);
    assert content == l1 + "\n" + l2 by { TwoLinesText(l1, l2, id, versionId); }
    IdentityOfTwo(l1, l2);
  }

  lemma TwoLinesText(l1: string, l2: string, id: string, versionId: string)
    requires l1 == IdKey + "=" + id && l2 == VersionIdKey + "=" + versionId
    ensures l1 + "\n" + l2 == "ID=" + id + "\nVERSION_ID=" + versionId
  {
  }

  /** An `ID` line alone gives the bare id. */
  lemma IdOnly(id: string, content: string)
    requires '=' !in id && '\n' !in id
    requires content == "ID=" + id
    ensures Identity(content) == Ok(RemoveChar(id, '"'))
  {
    var l := IdKey + "=" + id;
    assert Join([l], '\n') == l == content;
    assert '\n' !in l;
    IdentityOfLines([l]);
    KeyValueLine(l, IdKey, id);
    KeyValueLineSafe(l, IdKey, id);
    assert !AnyPanics([l]);
    SingleLine(l, IdKey);
    SingleLine(l, VersionIdKey);
  }

  /** Without an `ID` line the identity is empty, whatever `VERSION_ID` says. */
  lemma NoIdGivesEmpty(content: string)
    requires Identity(content).Ok?
    requires forall j :: 0 <= j < |Split(content, '\n')| ==> !Sets(Split(content, '\n')[j], IdKey)
    ensures Identity(content) == Ok("")
  {
    LastValueIsLast(Split(content, '\n'), IdKey);
  }

  /** The line that sets the key last decides its value. */
  lemma LastSetterDecides(lines: seq<string>, key: string, i: nat)
    requires i < |lines| && Sets(lines[i], key)
    requires forall k :: i < k < |lines| ==> !Sets(lines[k], key)
    ensures LastValue(lines, key) == Some(ValueOf(lines[i]))
  {
    LastValueIsLast(lines, key);
    var w :| 0 <= w < |lines| && Sets(lines[w], key) && LastValue(lines, key).value == ValueOf(lines[w])
      && forall k :: w < k < |lines| ==> !Sets(lines[k], key);
    assert w == i;
  }

  /** On any accepted file, whatever its other lines, their order and a
      trailing newline: when line `i` is the last to set `ID`, line `j` the
      last to set `VERSION_ID`, and both values are non-empty, the identity
      is `id:version_id`. */
  lemma BothPresentGeneral(content: string, i: nat, j: nat)
    requires Identity(content).Ok?
    requires i < |Split(content, '\n')| && Sets(Split(content, '\n')[i], IdKey)
    requires forall k :: i < k < |Split(content, '\n')| ==> !Sets(Split(content, '\n')[k], IdKey)
    requires j < |Split(content, '\n')| && Sets(Split(content, '\n')[j], VersionIdKey)
    requires forall k :: j < k < |Split(content, '\n')| ==> !Sets(Split(content, '\n')[k], VersionIdKey)
    requires ValueOf(Split(content, '\n')[i]) != "" && ValueOf(Split(content, '\n')[j]) != ""
    ensures Identity(content) == Ok(ValueOf(Split(content, '\n')[i]) + ":" + ValueOf(Split(content, '\n')[j]))
  {
    var lines := Split(content, '\n');
    LastSetterDecides(lines, IdKey, i);
    LastSetterDecides(lines, VersionIdKey, j);
  }

  /** On any accepted file where line `i` is the last to set `ID` and no
      line sets `VERSION_ID`, the identity is the bare id. */
  lemma IdOnlyGeneral(content: string, i: nat)
    requires Identity(content).Ok?
    requires i < |Split(content, '\n')| && Sets(Split(content, '\n')[i], IdKey)
    requires forall k :: i < k < |Split(content, '\n')| ==> !Sets(Split(content, '\n')[k], IdKey)
    requires forall k :: 0 <= k < |Split(content, '\n')| ==> !Sets(Split(content, '\n')[k], VersionIdKey)
    ensures Identity(content) == Ok(ValueOf(Split(content, '\n')[i]))
  {
    var lines := Split(content, '\n');
    LastSetterDecides(lines, IdKey, i);
    LastValueIsLast(lines, VersionIdKey);
  }

  /** A `VERSION_ID` line alone gives the empty identity. */
  lemma VersionIdOnly(versionId: string, content: string)
    requires '=' !in versionId && '\n' !in versionId
    requires content == "VERSION_ID=" + versionId
    ensures Identity(content) == Ok("")
  {
    var l := VersionIdKey + "=" + versionId;
    assert Join([l], '\n') == l == content;
    assert '\n' !in l;
    IdentityOfLines([l]);
    KeyValueLine(l, VersionIdKey, versionId);
    KeyValueLineSafe(l, VersionIdKey, versionId);
    assert !AnyPanics([l]);
    SingleLine(l, IdKey);
  }

  /** A bare key line anywhere makes the parse fail: first, last, the only
      line, `ID` or `VERSION_ID`. */
  lemma BareKeyFails(content: string, k: nat)
    requires k < |Split(content, '\n')|
    requires Split(content, '\n')[k] in {IdKey, VersionIdKey}
    ensures Identity(content) == Err(IndexOutOfRange)
  {
    PanicsIff(Split(content, '\n')[k]);
  }

  /** No identity the parser returns contains a quote character. */
  lemma IdentityQuoteFree(content: string)
    requires Identity(content).Ok?
    ensures '"' !in Identity(content).value
  {
    var lines := Split(content, '\n');
    LastValueQuoteFree(lines, IdKey);
    LastValueQuoteFree(lines, VersionIdKey);
    ComposeQuoteFree(LastValue(lines, IdKey).GetOr(""), LastValue(lines, VersionIdKey).GetOr(""));
  }

  lemma {:induction false} LastValueQuoteFree(lines: seq<string>, key: string)
    ensures '"' !in LastValue(lines, key).GetOr("")
    decreases |lines|
  {
    if lines != [] {
      LastValueQuoteFree(lines[..|lines| - 1], key);
    }
  }

  /** A quoted value loses both quotes. */
  lemma Unquote(quoted: string, value: string)
    requires quoted == "\"" + value + "\"" && '"' !in value
    ensures RemoveChar(quoted, '"') == value
  {
    RemoveCharConcat("\"" + value, "\"", '"');
    RemoveCharConcat("\"", value, '"');
    RemoveCharAbsent(value, '"');
  }

  /** Quoted values, as os-release files usually write them. */
  lemma BothPresentQuoted(id: string, versionId: string, content: string)
    requires '"' !in id && '=' !in id && '\n' !in id && id != ""
    requires '"' !in versionId && '=' !in versionId && '\n' !in versionId && versionId != ""
    requires content == "ID=\"" + id + "\"\nVERSION_ID=\"" + versionId + "\""
    ensures Identity(content) == Ok(id + ":" + versionId)
  {
    Unquote("\"" + id + "\"", id);
    Unquote("\"" + versionId + "\"", versionId);
    assert content == "ID=" + ("\"" + id + "\"") + "\nVERSION_ID=" + ("\"" + versionId + "\"");
    BothPresent("\"" + id + "\"", "\"" + versionId + "\"", content);
  }

  lemma IdOnlyQuoted(id: string, content: string)
    requires '"' !in id && '=' !in id && '\n' !in id
    requires content == "ID=\"" + id + "\""
    ensures Identity(content) == Ok(id)
  {
    Unquote("\"" + id + "\"", id);
    assert content == "ID=" + ("\"" + id + "\"");
    IdOnly("\"" + id + "\"", content);
  }

  /** The example file with only an `ID` line. */
  lemma CentOSExample(content: string)
    requires content == "ID=\"centos\""
    ensures Identity(content) == Ok("centos")
  {
    IdOnlyQuoted("centos", content);
  }

  /** The parser with the guard `len(bits) > 1` in place of `len(bits) > 0`:
      a line without `=` is skipped like any other irrelevant line. */
  function GuardedIdentity(content: string): string {
    var lines := Split(content, '\n');
    Compose(LastValue(lines, IdKey).GetOr(""), LastValue(lines, VersionIdKey).GetOr(""))
  }

  /** The guarded parser never fails, agrees with the original on every file
      the original accepts, and reads a bare key line as no value at all. */
  lemma GuardedIdentityAgrees(content: string)
    ensures Identity(content).Ok? ==> Identity(content).value == GuardedIdentity(content)
    ensures GuardedIdentity("ID") == ""
    ensures '"' !in GuardedIdentity(content)
  {
    SplitSingle("ID", '\n');
    SplitSingle("ID", '=');
    SingleLine("ID", IdKey);
    SingleLine("ID", VersionIdKey);
    var lines := Split(content, '\n');
    LastValueQuoteFree(lines, IdKey);
    LastValueQuoteFree(lines, VersionIdKey);
    ComposeQuoteFree(LastValue(lines, IdKey).GetOr(""), LastValue(lines, VersionIdKey).GetOr(""));
  }

  /** For the guarded parser a bare key line sets nothing: a bare key line
      after the others leaves both values as they were. */
  lemma GuardedSkipsBareKey(lines: seq<string>, bare: string, key: string)
    requires bare in {IdKey, VersionIdKey}
    ensures !Sets(bare, key)
    ensures LastValue(lines + [bare], key) == LastValue(lines, key)
  {
    SplitSingle(bare, '=');
    OtherLineKeeps(lines, bare, key);
  }

  lemma ComposeQuoteFree(a: string, b: string)
    requires '"' !in a && '"' !in b
    ensures '"' !in Compose(a, b)
  {
  }
}
