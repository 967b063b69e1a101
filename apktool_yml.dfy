/**
 * `updateApkToolYmlVersion`: the `apktool.yml` that apktool writes when it
 * unpacks an APK is read line by line; a line mentioning `versionCode` is
 * replaced by the code `getVersionCode` derives from the new version name,
 * otherwise a line mentioning `versionName` is replaced by the name itself,
 * and every line is written back followed by CR LF.
 */
module ApkToolYml {
  import opened Results
  import opened JavaText
  import opened VersionCode
  import opened FileTree

  const YmlName: string := "apktool.yml"

  function CodeLine(code: string): string
  {
    "  versionCode: '" + code + "'"
  }

  function NameLine(name: string): string
  {
    "  versionName: '" + name + "'"
  }

  /** What the loop body turns one line into, given the derived code. */
  function RewriteLine(line: string, code: string, name: string): string
  {
    if Contains(line, "versionCode") then CodeLine(code)
    else if Contains(line, "versionName") then NameLine(name)
    else line
  }

  function RewriteLines(lines: seq<string>, code: string, name: string): seq<string>
  {
    seq(|lines|, k requires 0 <= k < |lines| => RewriteLine(lines[k], code, name))
  }

  /** Some line of the file makes the loop call `getVersionCode`. */
  predicate HasCodeLine(lines: seq<string>)
  {
    exists k | 0 <= k < |lines| :: Contains(lines[k], "versionCode")
  }

  /** The derived code; irrelevant (and empty) when the name is rejected. */
  function CodeFor(name: string): string
  {
    match VersionCodeOf(name)
    case Ok(code) => code
    case Err(_) => ""
  }

  /**
   * The text `updateApkToolYmlVersion` writes for the file text `contents`,
   * or the error `getVersionCode` throws, which aborts before anything is
   * written. The name is checked only when a `versionCode` line is met.
   */
  function YmlUpdate(contents: string, name: string): Result<string, VersionError>
  {
    var lines := ReadLines(contents);
    if HasCodeLine(lines) && VersionCodeOf(name).Err? then Err(VersionCodeOf(name).error)
    else Ok(JoinLines(RewriteLines(lines, CodeFor(name), name)))
  }

  /** The `while ((line = reader.readLine()) != null)` loop building the new text. */
  method RewriteYml(contents: string, name: string) returns (r: Result<string, VersionError>)
    ensures r == YmlUpdate(contents, name)
  {
    var lines := ReadLines(contents);
    ghost var code := CodeFor(name);
    var sb := "";
    var i := 0;
    while i < |lines|
      invariant 0 <= i <= |lines|
      invariant sb == JoinLines(RewriteLines(lines[..i], code, name))
      invariant !HasCodeLine(lines[..i]) || VersionCodeOf(name).Ok?
    {
      var line := lines[i];
      if Contains(line, "versionCode") {
        var derived := VersionCodeOf(name);
        if derived.Err? {
          assert Contains(lines[i], "versionCode");
          return Err(derived.error);
        }
        assert derived.value == code;
        line := CodeLine(derived.value);
      } else if Contains(line, "versionName") {
        line := NameLine(name);
      }
      assert line == RewriteLine(lines[i], code, name);
      RewriteStep(lines, i, code, name);
      sb := sb + line + "\r\n";
      i := i + 1;
    }
    assert lines[..i] == lines;
    r := Ok(sb);
  }

  /**
   * The update on disk: a missing `apktool.yml` (or a directory of that
   * name) makes `FileInputStream` throw; a rejected version name throws in
   * the loop; either way `false` is returned and nothing is written.
   */
  method UpdateApkToolYmlVersion(fs: FileSystem, appFolder: Path, name: string) returns (ok: bool)
    requires fs.Valid()
    modifies fs
    ensures fs.Valid()
    ensures var yml := appFolder + [YmlName];
      ok <==> yml in old(fs.entries) && old(fs.entries)[yml].File?
              && YmlUpdate(old(fs.entries)[yml].contents, name).Ok?
    ensures var yml := appFolder + [YmlName];
      ok ==> fs.entries == old(fs.entries)[yml := File(YmlUpdate(old(fs.entries)[yml].contents, name).value)]
    ensures !ok ==> fs.entries == old(fs.entries)
  {
    var yml := appFolder + [YmlName];
    if yml !in fs.entries || fs.entries[yml].Dir? {
      return false;
    }
    var r := RewriteYml(fs.entries[yml].contents, name);
    if r.Err? {
      return false;
    }
    OverwriteWellFormed(fs.entries, yml, r.value);
    fs.entries := fs.entries[yml := File(r.value)];
    ok := true;
  }

  /** One more line through the loop: its rewrite is appended, and it may be a `versionCode` line. */
  lemma RewriteStep(lines: seq<string>, i: nat, code: string, name: string)
    requires i < |lines|
    ensures JoinLines(RewriteLines(lines[..i + 1], code, name))
         == JoinLines(RewriteLines(lines[..i], code, name)) + RewriteLine(lines[i], code, name) + "\r\n"
    ensures HasCodeLine(lines[..i + 1]) <==> HasCodeLine(lines[..i]) || Contains(lines[i], "versionCode")
  {
    assert RewriteLines(lines[..i + 1], code, name)
        == RewriteLines(lines[..i], code, name) + [RewriteLine(lines[i], code, name)];
    JoinLinesSnoc(RewriteLines(lines[..i], code, name), RewriteLine(lines[i], code, name));
    if HasCodeLine(lines[..i + 1]) {
      var k :| 0 <= k < i + 1 && Contains(lines[..i + 1][k], "versionCode");
      if k < i {
        assert lines[..i][k] == lines[..i + 1][k];
      }
    }
    if HasCodeLine(lines[..i]) {
      var k :| 0 <= k < i && Contains(lines[..i][k], "versionCode");
      assert lines[..i + 1][k] == lines[..i][k];
    }
    if Contains(lines[i], "versionCode") {
      assert lines[..i + 1][i] == lines[i];
    }
  }

  // ---------------------------------------------------------------------------
  // Properties of the update

  lemma DecimalNoLineBreak(v: int)
    ensures NoLineBreak(IntToDecimal(v))
  {
    var s := IntToDecimal(v);
    forall i | 0 <= i < |s| ensures s[i] != CR && s[i] != LF {
      if v < 0 && i > 0 {
        assert s[i] == s[1..][i - 1];
      }
    }
  }

  lemma CodeForNoLineBreak(name: string)
    ensures NoLineBreak(CodeFor(name))
  {
    match VersionCodeOf(name)
    case Ok(code) =>
      assert VersionChars(name) && |Split(name, '.')| == 3;
      var parts := Split(name, '.');
      var major, minor, build := ParseInt(parts[0]).value, ParseInt(parts[1]).value, ParseInt(parts[2]).value;
      assert code == IntToDecimal(Encode(major, minor, build));
      DecimalNoLineBreak(Encode(major, minor, build));
    case Err(_) =>
  }

  lemma RewrittenNoLineBreak(lines: seq<string>, code: string, name: string)
    requires forall i :: 0 <= i < |lines| ==> NoLineBreak(lines[i])
    requires NoLineBreak(code) && NoLineBreak(name)
    ensures forall i :: 0 <= i < |lines| ==> NoLineBreak(RewriteLines(lines, code, name)[i])
  {
    forall i | 0 <= i < |lines| ensures NoLineBreak(RewriteLines(lines, code, name)[i]) {
      var out := RewriteLines(lines, code, name)[i];
      forall j | 0 <= j < |out| ensures out[j] != CR && out[j] != LF {
        if Contains(lines[i], "versionCode") {
          assert out == "  versionCode: '" + code + "'";
          if 16 <= j < 16 + |code| {
            assert out[j] == code[j - 16];
          }
        } else if Contains(lines[i], "versionName") {
          assert out == "  versionName: '" + name + "'";
          if 16 <= j < 16 + |name| {
            assert out[j] == name[j - 16];
          }
        }
      }
    }
  }

  /**
   * Reading the written file back gives one line per line read, in order:
   * the `versionCode` lines now carry the derived code, the other
   * `versionName` lines the new name, and every other line is as it was.
   */
  lemma {:induction false} YmlReadBack(contents: string, name: string)
    requires NoLineBreak(name)
    requires YmlUpdate(contents, name).Ok?
    ensures var lines, out := ReadLines(contents), ReadLines(YmlUpdate(contents, name).value);
      && |out| == |lines|
      && (forall i :: 0 <= i < |lines| && Contains(lines[i], "versionCode") ==>
            out[i] == CodeLine(VersionCodeOf(name).value))
      && (forall i :: 0 <= i < |lines| && !Contains(lines[i], "versionCode") && Contains(lines[i], "versionName") ==>
            out[i] == NameLine(name))
      && (forall i :: 0 <= i < |lines| && !Contains(lines[i], "versionCode") && !Contains(lines[i], "versionName") ==>
            out[i] == lines[i])
  {
    var lines := ReadLines(contents);
    CodeForNoLineBreak(name);
    RewrittenNoLineBreak(lines, CodeFor(name), name);
    ReadJoinedLines(RewriteLines(lines, CodeFor(name), name));
    forall i | 0 <= i < |lines| && Contains(lines[i], "versionCode")
      ensures VersionCodeOf(name).Ok? && CodeFor(name) == VersionCodeOf(name).value
    {
      assert HasCodeLine(lines);
    }
  }

  /** The version name is only validated when the file has a `versionCode` line. */
  lemma YmlFailure(contents: string, name: string)
    ensures YmlUpdate(contents, name).Err? <==> HasCodeLine(ReadLines(contents)) && VersionCodeOf(name).Err?
    ensures YmlUpdate(contents, name).Err? ==> YmlUpdate(contents, name).error == VersionCodeOf(name).error
  {
  }

  lemma OccursAtStart(prefix: string, t: string, rest: string)
    ensures Contains(prefix + t + rest, t)
  {
    var s := prefix + t + rest;
    assert s[|prefix|..|prefix| + |t|] == t;
    assert OccursAt(s, t, |prefix|);
  }

  lemma CodeLineIsCodeLine(code: string)
    ensures Contains(CodeLine(code), "versionCode")
  {
    OccursAtStart("  ", "versionCode", ": '" + code + "'");
    assert CodeLine(code) == "  " + "versionCode" + (": '" + code + "'");
  }

  lemma NameLineIsNameLine(name: string)
    ensures Contains(NameLine(name), "versionName")
  {
    OccursAtStart("  ", "versionName", ": '" + name + "'");
    assert NameLine(name) == "  " + "versionName" + (": '" + name + "'");
  }

  /**
   * Running the update a second time with the same version name changes
   * nothing, provided the name cannot be read as a line of its own and the
   * new `versionName` line does not itself mention `versionCode`.
   */
  lemma YmlIdempotent(contents: string, name: string)
    requires NoLineBreak(name) && !Contains(NameLine(name), "versionCode")
    requires YmlUpdate(contents, name).Ok?
    ensures YmlUpdate(YmlUpdate(contents, name).value, name) == YmlUpdate(contents, name)
  {
    var lines := ReadLines(contents);
    var code := CodeFor(name);
    var out := RewriteLines(lines, code, name);
    CodeForNoLineBreak(name);
    RewrittenNoLineBreak(lines, code, name);
    ReadJoinedLines(out);
    CodeLineIsCodeLine(code);
    NameLineIsNameLine(name);
    forall i | 0 <= i < |out| ensures RewriteLine(out[i], code, name) == out[i] {
    }
    assert RewriteLines(out, code, name) == out;
    if HasCodeLine(out) {
      var k :| 0 <= k < |out| && Contains(out[k], "versionCode");
      assert Contains(lines[k], "versionCode");
      assert HasCodeLine(lines);
    }
  }
}
