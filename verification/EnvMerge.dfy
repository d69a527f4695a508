/** Merging the settings file of a migrated installation with the settings file of
    the server it is moved to.  A file is a sequence of lines. */
module EnvMerge {
  import opened Text

  /** The settings that belong to the server, not to the installation. */
  const SERVER_LOCAL_KEYS: set<string> := {
    "ITSM_DATABASE_URL", "ITSM_DATA_DIRECTORY", "ITSM_BACKUP_DIRECTORY", "ITSM_UPDATE_STAGING_DIRECTORY",
    "ITSM_PUBLIC_URL", "ITSM_ALLOWED_ORIGINS", "ITSM_TRUSTED_HOSTS", "ITSM_FORWARDED_ALLOW_IPS", "ITSM_BIND_HOST",
    "ITSM_PORT", "ITSM_HTTPS_PORT", "ITSM_OUTBOUND_EMAIL_ENABLED", "ITSM_STATIC_DIRECTORY",
    "ITSM_ASSETPILOT_EXECUTABLE", "ITSM_ASSETPILOT_DATABASE_PATH", "ITSM_ASSETPILOT_URL",
    "ITSM_ASSETPILOT_INTERNAL_URL", "ITSM_ASSETPILOT_PORT"}

  // ---------------------------------------------------------------- lines

  /** The part before the first equals sign, or everything. */
  function Before(s: string): (r: string)
    ensures |r| <= |s| && r == s[..|r|] && '=' !in r
    ensures |r| < |s| ==> s[|r|] == '='
    ensures '=' in s ==> |r| < |s|
  {
    if s == [] || s[0] == '=' then [] else [s[0]] + Before(s[1..])
  }

  /** The line sets a value: it is not blank, no comment, and has an equals sign. */
  predicate IsSetting(line: string) {
    var s := Strip(line);
    s != [] && s[0] != '#' && '=' in s
  }

  function KeyOf(line: string): string
    requires IsSetting(line)
  {
    Before(Strip(line))
  }

  function ValueOf(line: string): string
    requires IsSetting(line)
  {
    Strip(line)[|KeyOf(line)| + 1..]
  }

  function Setting(key: string, value: string): string { key + "=" + value }

  /** What a file's lines set: the last value of each key. */
  function Values(lines: seq<string>): map<string, string> {
    if lines == [] then map[]
    else
      var line := lines[|lines| - 1];
      var before := Values(lines[..|lines| - 1]);
      if IsSetting(line) then before[KeyOf(line) := ValueOf(line)] else before
  }

  /** The override the merge stands for: current values of server-local keys win,
      everything else is imported. */
  function Override(imported: map<string, string>, current: map<string, string>, keys: set<string>)
    : map<string, string>
  {
    map key | key in imported.Keys + current.Keys * keys ::
      if key in keys && key in current then current[key] else imported[key]
  }

  // ---------------------------------------------------------------- the program

  method ReadEnv(lines: seq<string>) returns (values: map<string, string>)
    ensures values == Values(lines)
  {
    values := map[];
    for i := 0 to |lines|
      invariant values == Values(lines[..i])
    {
      assert lines[..i + 1][..i] == lines[..i];
      if IsSetting(lines[i]) {
        values := values[KeyOf(lines[i]) := ValueOf(lines[i])];
      }
    }
    assert lines[..|lines|] == lines;
  }

  /** A line of the imported file as it appears in the result. */
  function Kept(line: string, current: map<string, string>, keys: set<string>): string {
    if IsSetting(line) && KeyOf(line) in keys && KeyOf(line) in current
    then Setting(KeyOf(line), current[KeyOf(line)])
    else line
  }

  function KeptLines(lines: seq<string>, current: map<string, string>, keys: set<string>): (r: seq<string>)
    ensures |r| == |lines|
  {
    seq(|lines|, i requires 0 <= i < |lines| => Kept(lines[i], current, keys))
  }

  /** The lines of the current file that set a server-local key the imported file
      does not mention. */
  function AddedLines(lines: seq<string>, seen: set<string>, keys: set<string>): seq<string> {
    if lines == [] then []
    else
      var line := lines[|lines| - 1];
      AddedLines(lines[..|lines| - 1], seen, keys) +
      if IsSetting(line) && KeyOf(line) in keys && KeyOf(line) !in seen then [line] else []
  }

  function Merged(imported: seq<string>, current: seq<string>, keys: set<string>): seq<string> {
    KeptLines(imported, Values(current), keys) + AddedLines(current, Values(imported).Keys, keys)
  }

  /** Merges two settings files.  Reading the result back gives the override. */
  method MergeEnvFiles(imported: seq<string>, current: seq<string>) returns (output: seq<string>)
    ensures output == Merged(imported, current, SERVER_LOCAL_KEYS)
    ensures Values(output) == Override(Values(imported), Values(current), SERVER_LOCAL_KEYS)
  {
    hide IsSetting, KeyOf, ValueOf, Values, AddedLines, Override;
    var keys := SERVER_LOCAL_KEYS;
    var currentValues := ReadEnv(current);
    output := [];
    var seen: set<string> := {};
    NoLines(seen, keys);
    for i := 0 to |imported|
      invariant output == KeptLines(imported[..i], currentValues, keys)
      invariant seen == Values(imported[..i]).Keys
    {
      var line := imported[i];
      assert imported[..i + 1] == imported[..i] + [line];
      ValuesSnoc(imported[..i], line);
      if !IsSetting(line) {
        output := output + [line];
      } else {
        var key := KeyOf(line);
        seen := seen + {key};
        if key in keys && key in currentValues {
          output := output + [Setting(key, currentValues[key])];
        } else {
          output := output + [line];
        }
      }
    }
    assert imported[..|imported|] == imported;
    ghost var kept := output;
    NoLines(seen, keys);
    for i := 0 to |current|
      invariant output == kept + AddedLines(current[..i], seen, keys)
    {
      var line := current[i];
      assert current[..i + 1] == current[..i] + [line];
      AddedSnoc(current[..i], line, seen, keys);
      if IsSetting(line) && KeyOf(line) in keys && KeyOf(line) !in seen {
        output := output + [line];
      }
    }
    assert current[..|current|] == current;
    MergeIsOverride(imported, current, keys);
  }

  // ---------------------------------------------------------------- reading back

  lemma NoLines(seen: set<string>, keys: set<string>)
    ensures Values([]) == map[] && AddedLines([], seen, keys) == []
  {
  }

  /** A value read from a file has nothing to strip at its end. */
  ghost predicate Tidy(value: string) { value != [] ==> !IsSpace(value[|value| - 1]) }

  lemma {:induction false} ValuesTidy(lines: seq<string>)
    ensures forall key | key in Values(lines) :: Tidy(Values(lines)[key])
  {
    hide IsSetting, KeyOf, ValueOf, Tidy;
    if lines != [] {
      ValuesTidy(lines[..|lines| - 1]);
      var line := lines[|lines| - 1];
      if IsSetting(line) {
        ValueIsTidy(line);
      }
    }
  }

  lemma ValueIsTidy(line: string)
    requires IsSetting(line)
    ensures Tidy(ValueOf(line))
  {
    hide Strip, Before;
    StripIsTrim(line);
  }

  lemma {:induction false} BeforeSetting(key: string, value: string)
    requires '=' !in key
    ensures Before(Setting(key, value)) == key
  {
    if key != [] {
      assert Setting(key, value)[1..] == Setting(key[1..], value);
      assert key[0] in key;
      assert forall c | c in key[1..] :: c in key;
      BeforeSetting(key[1..], value);
    }
  }

  /** A rewritten line reads back as the key and value it was written from. */
  lemma SettingReadsBack(line: string, value: string)
    requires IsSetting(line) && Tidy(value)
    ensures var written := Setting(KeyOf(line), value);
      IsSetting(written) && KeyOf(written) == KeyOf(line) && ValueOf(written) == value
  {
    hide Strip, Before;
    var key := KeyOf(line);
    var written := Setting(key, value);
    StripIsTrim(line);
    SettingIsTrim(Strip(line), key, value);
    TrimStays(written);
    BeforeSetting(key, value);
    assert written[|key|] == '=';
    assert written[|key| + 1..] == value;
  }

  lemma SettingIsTrim(s: string, key: string, value: string)
    requires s != [] && Trim(s) && Tidy(value) && |key| < |s| && key == s[..|key|] && s[|key|] == '='
    ensures Trim(Setting(key, value)) && Setting(key, value)[0] == s[0]
  {
  }

  lemma ValuesSnoc(lines: seq<string>, line: string)
    ensures Values(lines + [line]) ==
      if IsSetting(line) then Values(lines)[KeyOf(line) := ValueOf(line)] else Values(lines)
  {
    hide IsSetting, KeyOf, ValueOf;
    assert (lines + [line])[..|lines|] == lines;
  }

  /** Values with the current ones preferred for the given keys. */
  ghost function Preferred(values: map<string, string>, current: map<string, string>, keys: set<string>)
    : map<string, string>
  {
    map key | key in values :: if key in keys && key in current then current[key] else values[key]
  }

  lemma {:induction false} ValuesOfKept(lines: seq<string>, current: map<string, string>, keys: set<string>)
    requires forall key | key in current :: Tidy(current[key])
    ensures Values(KeptLines(lines, current, keys)) == Preferred(Values(lines), current, keys)
  {
    hide IsSetting, KeyOf, ValueOf;
    if lines != [] {
      var rest, line := lines[..|lines| - 1], lines[|lines| - 1];
      assert lines == rest + [line];
      ValuesOfKept(rest, current, keys);
      KeptSnoc(rest, line, current, keys);
    }
  }

  lemma KeptSnoc(rest: seq<string>, line: string, current: map<string, string>, keys: set<string>)
    requires forall key | key in current :: Tidy(current[key])
    requires Values(KeptLines(rest, current, keys)) == Preferred(Values(rest), current, keys)
    ensures Values(KeptLines(rest + [line], current, keys)) == Preferred(Values(rest + [line]), current, keys)
  {
    hide IsSetting, KeyOf, ValueOf, Values, Tidy, Setting;
    assert KeptLines(rest + [line], current, keys) == KeptLines(rest, current, keys) + [Kept(line, current, keys)];
    ValuesSnoc(KeptLines(rest, current, keys), Kept(line, current, keys));
    ValuesSnoc(rest, line);
    if IsSetting(line) && KeyOf(line) in current {
      SettingReadsBack(line, current[KeyOf(line)]);
    }
  }

  /** The values of some keys that were not seen elsewhere. */
  ghost function Unseen(values: map<string, string>, seen: set<string>, keys: set<string>): map<string, string> {
    map key | key in values && key in keys && key !in seen :: values[key]
  }

  lemma AddedSnoc(rest: seq<string>, line: string, seen: set<string>, keys: set<string>)
    ensures AddedLines(rest + [line], seen, keys) ==
      if IsSetting(line) && KeyOf(line) in keys && KeyOf(line) !in seen
      then AddedLines(rest, seen, keys) + [line] else AddedLines(rest, seen, keys)
  {
    hide IsSetting, KeyOf;
    assert (rest + [line])[..|rest|] == rest;
    assert AddedLines(rest, seen, keys) + [] == AddedLines(rest, seen, keys);
  }

  lemma UnseenStep(values: map<string, string>, key: string, value: string, seen: set<string>, keys: set<string>)
    ensures Unseen(values[key := value], seen, keys) ==
      if key in keys && key !in seen then Unseen(values, seen, keys)[key := value] else Unseen(values, seen, keys)
  {
  }

  lemma {:induction false} ValuesOfAdded(lines: seq<string>, seen: set<string>, keys: set<string>)
    ensures Values(AddedLines(lines, seen, keys)) == Unseen(Values(lines), seen, keys)
  {
    hide IsSetting, KeyOf, ValueOf, Unseen;
    if lines != [] {
      var rest, line := lines[..|lines| - 1], lines[|lines| - 1];
      ValuesOfAdded(rest, seen, keys);
      assert lines == rest + [line];
      AddedSnoc(rest, line, seen, keys);
      ValuesSnoc(AddedLines(rest, seen, keys), line);
      if IsSetting(line) {
        UnseenStep(Values(rest), KeyOf(line), ValueOf(line), seen, keys);
      }
    } else {
      NothingUnseen(seen, keys);
    }
  }

  lemma NothingUnseen(seen: set<string>, keys: set<string>)
    ensures Unseen(map[], seen, keys) == map[]
  {
  }

  lemma {:induction false} ValuesConcat(a: seq<string>, b: seq<string>)
    ensures Values(a + b) == Values(a) + Values(b)
    decreases |b|
  {
    hide IsSetting, KeyOf, ValueOf;
    if b == [] {
      assert a + b == a;
    } else {
      var n := |b| - 1;
      assert (a + b)[..|a| + n] == a + b[..n];
      ValuesConcat(a, b[..n]);
    }
  }

  /** Reading back a merge gives the override, whatever duplicates, comments and
      blank lines the two files hold. */
  lemma MergeIsOverride(imported: seq<string>, current: seq<string>, keys: set<string>)
    ensures Values(Merged(imported, current, keys)) == Override(Values(imported), Values(current), keys)
  {
    ValuesTidy(current);
    ValuesOfKept(imported, Values(current), keys);
    ValuesOfAdded(current, Values(imported).Keys, keys);
    ValuesConcat(KeptLines(imported, Values(current), keys), AddedLines(current, Values(imported).Keys, keys));
  }

  /** Merging the result with the current file again reads back the same. */
  lemma MergeAgainReadsSame(imported: seq<string>, current: seq<string>, keys: set<string>)
    ensures var once := Merged(imported, current, keys);
      Values(Merged(once, current, keys)) == Values(once)
  {
    MergeIsOverride(imported, current, keys);
    MergeIsOverride(Merged(imported, current, keys), current, keys);
  }

  /** The second merge may still rewrite lines it kept from the current file; from
      then on not even a line changes. */
  lemma SecondMergeSettles(imported: seq<string>, current: seq<string>, keys: set<string>)
    ensures var twice := Merged(Merged(imported, current, keys), current, keys);
      Merged(twice, current, keys) == twice
  {
    hide Values, AddedLines, Kept;
    var once := Merged(imported, current, keys);
    var twice := Merged(once, current, keys);
    MergeIsOverride(imported, current, keys);
    MergeIsOverride(once, current, keys);
    ValuesTidy(current);
    NothingAdded(current, Values(once).Keys, keys);
    NothingAdded(current, Values(twice).Keys, keys);
    forall i | 0 <= i < |once|
      ensures Kept(Kept(once[i], Values(current), keys), Values(current), keys) == Kept(once[i], Values(current), keys)
    {
      KeptAgain(once[i], Values(current), keys);
    }
  }

  /** The line sets a server-local key that the imported file does not mention. */
  ghost predicate Adds(line: string, seen: set<string>, keys: set<string>) {
    IsSetting(line) && KeyOf(line) in keys && KeyOf(line) !in seen
  }

  lemma {:induction false} AddedAre(lines: seq<string>, seen: set<string>, keys: set<string>, line: string)
    ensures line in AddedLines(lines, seen, keys) <==> line in lines && Adds(line, seen, keys)
    decreases |lines|
  {
    hide IsSetting, KeyOf;
    if lines != [] {
      AddedAre(lines[..|lines| - 1], seen, keys, line);
      assert lines == lines[..|lines| - 1] + [lines[|lines| - 1]];
    }
  }

  lemma {:induction false} SetsItsKey(lines: seq<string>, line: string)
    requires line in lines && IsSetting(line)
    ensures KeyOf(line) in Values(lines)
    decreases |lines|
  {
    hide IsSetting, KeyOf, ValueOf;
    if line != lines[|lines| - 1] {
      assert lines == lines[..|lines| - 1] + [lines[|lines| - 1]];
      SetsItsKey(lines[..|lines| - 1], line);
    }
  }

  /** The line is written just as a merge would write its key's value. */
  ghost predicate AsWritten(line: string, values: map<string, string>)
    requires IsSetting(line)
  {
    KeyOf(line) in values && line == Setting(KeyOf(line), values[KeyOf(line)])
  }

  /** A line kept from the imported file stays as it is, and one taken from the current
      file does exactly when it is written as a merge would write it. */
  lemma KeptAgain(line: string, current: map<string, string>, keys: set<string>)
    requires forall key | key in current :: Tidy(current[key])
    ensures Kept(Kept(line, current, keys), current, keys) == Kept(line, current, keys)
    ensures IsSetting(line) && KeyOf(line) in keys && KeyOf(line) in current ==>
      (Kept(line, current, keys) == line <==> AsWritten(line, current))
  {
    hide IsSetting, KeyOf, Tidy;
    if IsSetting(line) && KeyOf(line) in current {
      SettingReadsBack(line, current[KeyOf(line)]);
    }
  }

  lemma AddedAgain(current: seq<string>, seen: set<string>, keys: set<string>)
    ensures KeptLines(AddedLines(current, seen, keys), Values(current), keys) == AddedLines(current, seen, keys) <==>
      forall line | line in current && Adds(line, seen, keys) :: AsWritten(line, Values(current))
  {
    hide IsSetting, KeyOf, AsWritten, Kept, AddedLines;
    var added, values := AddedLines(current, seen, keys), Values(current);
    ValuesTidy(current);
    forall line ensures line in added <==> line in current && Adds(line, seen, keys) {
      AddedAre(current, seen, keys, line);
    }
    forall line | line in added ensures Kept(line, values, keys) == line <==> AsWritten(line, values) {
      SetsItsKey(current, line);
      KeptAgain(line, values, keys);
    }
    var kept := KeptLines(added, values, keys);
    if kept == added {
      forall line | line in added ensures AsWritten(line, values) {
        var i :| 0 <= i < |added| && added[i] == line;
        assert kept[i] == line;
      }
    }
  }

  /** Merging again changes no line exactly when every line taken from the current file
      is written as a merge would write it: no blanks around it, and the last value of
      its key. */
  lemma SecondMergeSame(imported: seq<string>, current: seq<string>, keys: set<string>)
    ensures var once := Merged(imported, current, keys);
      Merged(once, current, keys) == once <==>
        forall line | line in current && Adds(line, Values(imported).Keys, keys) :: AsWritten(line, Values(current))
  {
    hide Values, AddedLines, Adds, AsWritten, Kept;
    var values, seen := Values(current), Values(imported).Keys;
    var kept, added := KeptLines(imported, values, keys), AddedLines(current, seen, keys);
    var once := Merged(imported, current, keys);
    ValuesTidy(current);
    MergeIsOverride(imported, current, keys);
    NothingAdded(current, Values(once).Keys, keys);
    forall i | 0 <= i < |kept| ensures Kept(kept[i], values, keys) == kept[i] {
      KeptAgain(imported[i], values, keys);
    }
    AddedAgain(current, seen, keys);
    assert KeptLines(once, values, keys) == KeptLines(kept, values, keys) + KeptLines(added, values, keys);
    assert KeptLines(kept, values, keys) == kept;
    assert KeptLines(once, values, keys) + [] == KeptLines(once, values, keys);
    if KeptLines(once, values, keys) == once {
      assert KeptLines(added, values, keys) == KeptLines(once, values, keys)[|kept|..] == once[|kept|..] == added;
    }
  }

  /** A setting after a blank. */
  lemma BlankSetting(key: string, value: string)
    requires key != [] && key[0] != '#' && '=' !in key && Trim(Setting(key, value))
    ensures var line := " " + Setting(key, value);
      IsSetting(line) && KeyOf(line) == key && ValueOf(line) == value && line != Setting(key, value)
  {
    hide Before, Strip, StripLeft, StripRight;
    var written := Setting(key, value);
    LeadingBlank(written);
    BeforeSetting(key, value);
    assert written[|key|] == '=' && written[|key| + 1..] == value;
  }

  lemma OneLine(line: string, seen: set<string>, keys: set<string>)
    requires IsSetting(line)
    ensures Values([line]) == map[KeyOf(line) := ValueOf(line)]
    ensures AddedLines([line], seen, keys) == if KeyOf(line) in keys && KeyOf(line) !in seen then [line] else []
  {
    hide IsSetting, KeyOf, ValueOf, Values, AddedLines;
    NoLines(seen, keys);
    assert [] + [line] == [line];
    ValuesSnoc([], line);
    AddedSnoc([], line, seen, keys);
  }

  /** With nothing imported, a server-local setting after a blank is kept as it is by
      the first merge and rewritten by the second. */
  lemma BlankIsRewritten(key: string, value: string, keys: set<string>)
    requires key in keys && key != [] && key[0] != '#' && '=' !in key && Trim(Setting(key, value))
    ensures var current := [" " + Setting(key, value)];
      && Merged([], current, keys) == current
      && Merged(current, current, keys) == [Setting(key, value)] != current
  {
    hide IsSetting, KeyOf, ValueOf, Values, AddedLines, Setting;
    var line := " " + Setting(key, value);
    NoLines({}, keys);
    BlankSetting(key, value);
    OneLine(line, {}, keys);
    OneLine(line, {key}, keys);
    assert Values([line]).Keys == {key};
    assert Values([]).Keys == {};
    assert KeptLines([], Values([line]), keys) == [];
    assert KeptLines([line], Values([line]), keys) == [Setting(key, value)];
  }

  /** One of the program's own keys, as it may stand in a settings file. */
  lemma BlankPortIsRewritten()
    ensures var current := [" ITSM_PORT=8080"];
      Merged(Merged([], current, SERVER_LOCAL_KEYS), current, SERVER_LOCAL_KEYS) == ["ITSM_PORT=8080"]
  {
    hide Merged, SERVER_LOCAL_KEYS;
    PortIsLocal();
    assert Setting("ITSM_PORT", "8080") == "ITSM_PORT=8080" && " " + "ITSM_PORT=8080" == " ITSM_PORT=8080";
    BlankIsRewritten("ITSM_PORT", "8080", SERVER_LOCAL_KEYS);
  }

  lemma PortIsLocal()
    ensures "ITSM_PORT" in SERVER_LOCAL_KEYS
  {
  }

  lemma LeadingBlank(s: string)
    requires s != [] && Trim(s)
    ensures Strip(" " + s) == s
  {
    assert (" " + s)[1..] == s;
    TrimStays(s);
    assert StripLeft(" " + s) == StripLeft(s) == s;
  }

  lemma {:induction false} NothingAdded(lines: seq<string>, seen: set<string>, keys: set<string>)
    requires Values(lines).Keys * keys <= seen
    ensures AddedLines(lines, seen, keys) == []
  {
    if lines != [] {
      NothingAdded(lines[..|lines| - 1], seen, keys);
    }
  }

  /** The comments and blank lines of a file, in order. */
  function Remarks(lines: seq<string>): seq<string> {
    if lines == [] then []
    else Remarks(lines[..|lines| - 1]) + if IsSetting(lines[|lines| - 1]) then [] else [lines[|lines| - 1]]
  }

  /** A merge keeps every comment of the imported file and takes none from the
      current one. */
  lemma MergeKeepsRemarks(imported: seq<string>, current: seq<string>, keys: set<string>)
    ensures Remarks(Merged(imported, current, keys)) == Remarks(imported)
  {
    ValuesTidy(current);
    RemarksOfKept(imported, Values(current), keys);
    NoRemarksAdded(current, Values(imported).Keys, keys, KeptLines(imported, Values(current), keys));
  }

  lemma RemarksSnoc(lines: seq<string>, line: string)
    ensures Remarks(lines + [line]) == if IsSetting(line) then Remarks(lines) else Remarks(lines) + [line]
  {
    hide IsSetting;
    assert (lines + [line])[..|lines|] == lines;
    assert Remarks(lines) + [] == Remarks(lines);
  }

  lemma {:induction false} RemarksOfKept(lines: seq<string>, current: map<string, string>, keys: set<string>)
    requires forall key | key in current :: Tidy(current[key])
    ensures Remarks(KeptLines(lines, current, keys)) == Remarks(lines)
  {
    hide IsSetting, KeyOf, ValueOf;
    if lines != [] {
      var rest, line := lines[..|lines| - 1], lines[|lines| - 1];
      RemarksOfKept(rest, current, keys);
      assert lines == rest + [line];
      assert KeptLines(lines, current, keys) == KeptLines(rest, current, keys) + [Kept(line, current, keys)];
      RemarksSnoc(rest, line);
      RemarksSnoc(KeptLines(rest, current, keys), Kept(line, current, keys));
      if IsSetting(line) && KeyOf(line) in current {
        SettingReadsBack(line, current[KeyOf(line)]);
      }
    }
  }

  lemma {:induction false} NoRemarksAdded(lines: seq<string>, seen: set<string>, keys: set<string>, kept: seq<string>)
    ensures Remarks(kept + AddedLines(lines, seen, keys)) == Remarks(kept)
  {
    hide IsSetting, KeyOf, Remarks;
    if lines == [] {
      assert kept + AddedLines(lines, seen, keys) == kept;
    } else {
      var rest, line := lines[..|lines| - 1], lines[|lines| - 1];
      NoRemarksAdded(rest, seen, keys, kept);
      assert lines == rest + [line];
      AddedSnoc(rest, line, seen, keys);
      var before := AddedLines(rest, seen, keys);
      assert kept + (before + [line]) == (kept + before) + [line];
      RemarksSnoc(kept + before, line);
    }
  }

  // ---------------------------------------------------------------- what a file says

  lemma BeforeFirst(key: string, rest: string)
    requires '=' !in key
    ensures Before(key + "=" + rest) == key
  {
    BeforeSetting(key, rest);
    assert Setting(key, rest) == key + "=" + rest;
  }

  /** A line sets a key to a value exactly when, without the white space around it, it
      is the key, an equals sign and the value, the key has no equals sign and the line
      does not start as a comment. */
  lemma SettingExactly(line: string, key: string, value: string)
    ensures IsSetting(line) && KeyOf(line) == key && ValueOf(line) == value <==>
      Strip(line) == key + "=" + value && '=' !in key && Strip(line)[0] != '#'
  {
    hide Strip, Before;
    var s := Strip(line);
    if s == key + "=" + value && '=' !in key {
      BeforeFirst(key, value);
      assert s[|key|] == '=';
      assert s[|key| + 1..] == value;
    }
    if IsSetting(line) {
      assert s == KeyOf(line) + "=" + ValueOf(line);
    }
  }

  /** Line `i` sets the key, and no later line does. */
  ghost predicate LastSets(lines: seq<string>, key: string, i: nat) {
    && i < |lines| && IsSetting(lines[i]) && KeyOf(lines[i]) == key
    && forall j | i < j < |lines| :: !(IsSetting(lines[j]) && KeyOf(lines[j]) == key)
  }

  lemma LastSetsMore(lines: seq<string>, key: string, i: nat)
    requires lines != []
    ensures var last := |lines| - 1;
      LastSets(lines, key, i) <==>
        if IsSetting(lines[last]) && KeyOf(lines[last]) == key then i == last
        else LastSets(lines[..last], key, i) && lines[..last][i] == lines[i]
    ensures LastSets(lines, key, i) ==> i < |lines| && IsSetting(lines[i])
  {
    hide IsSetting, KeyOf;
  }

  /** A file's value of a key is that of the last line that sets it. */
  lemma {:induction false} LastLineWins(lines: seq<string>, key: string)
    ensures key in Values(lines) <==> exists i: nat :: LastSets(lines, key, i)
    ensures forall i: nat | LastSets(lines, key, i) :: key in Values(lines) && Values(lines)[key] == ValueOf(lines[i])
  {
    hide IsSetting, KeyOf, ValueOf;
    if lines != [] {
      var last := |lines| - 1;
      var before := lines[..last];
      LastLineWins(before, key);
      forall i: nat
        ensures LastSets(lines, key, i) <==>
          if IsSetting(lines[last]) && KeyOf(lines[last]) == key then i == last
          else LastSets(before, key, i) && before[i] == lines[i]
      {
        LastSetsMore(lines, key, i);
      }
      hide LastSets;
      if IsSetting(lines[last]) && KeyOf(lines[last]) == key {
        assert LastSets(lines, key, last);
      } else {
        LastBefore(lines, before, key);
      }
    }
  }

  lemma LastBefore(lines: seq<string>, before: seq<string>, key: string)
    requires lines != [] && before == lines[..|lines| - 1]
    requires !(IsSetting(lines[|lines| - 1]) && KeyOf(lines[|lines| - 1]) == key)
    ensures (exists i: nat :: LastSets(lines, key, i)) <==> exists i: nat :: LastSets(before, key, i)
  {
    hide IsSetting, KeyOf;
    if i: nat :| LastSets(lines, key, i) {
      LastSetsMore(lines, key, i);
    }
    if i: nat :| LastSets(before, key, i) {
      assert LastSets(lines, key, i);
    }
  }

  /** Which keys a merge reads back, and with which values. */
  lemma MergeReadsBack(imported: seq<string>, current: seq<string>, keys: set<string>, key: string)
    ensures var merged, base, own := Values(Merged(imported, current, keys)), Values(imported), Values(current);
      && (key in keys && key in own ==> key in merged && merged[key] == own[key])
      && (!(key in keys && key in own) && key in base ==> key in merged && merged[key] == base[key])
      && (!(key in keys && key in own) && key !in base ==> key !in merged)
  {
    MergeIsOverride(imported, current, keys);
  }
}
