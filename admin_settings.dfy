/**
 * The admin settings panel's logic: the input type and label derived from a
 * setting key, and the map of edited values, filled from the loaded settings
 * and changed one key at a time. Case mapping is modelled for ASCII letters.
 */
module AdminSettings {

  import opened Wrappers
  import opened Strings

  /** A row of the admin settings as the settings endpoint returns it. */
  datatype AdminSetting = AdminSetting(
    id: string,
    settingKey: string,
    settingValue: Option<string>,
    description: Option<string>)

  // ---------------------------------------------------------------------------
  // Input type

  /** `getInputType`: the first of `api_key`, `email`, `url` the key contains decides, else `text`. */
  function GetInputType(settingKey: string): (inputType: string)
    ensures inputType in {"password", "email", "url", "text"}
    ensures inputType == "password" <==> Contains(settingKey, "api_key")
    ensures inputType == "email" <==> !Contains(settingKey, "api_key") && Contains(settingKey, "email")
    ensures inputType == "url" <==>
      !Contains(settingKey, "api_key") && !Contains(settingKey, "email") && Contains(settingKey, "url")
    ensures inputType == "text" <==>
      !Contains(settingKey, "api_key") && !Contains(settingKey, "email") && !Contains(settingKey, "url")
  {
    if Contains(settingKey, "api_key") then "password"
    else if Contains(settingKey, "email") then "email"
    else if Contains(settingKey, "url") then "url"
    else "text"
  }

  // ---------------------------------------------------------------------------
  // Display name

  function ToUpperChar(c: char): char
  {
    if 'a' <= c <= 'z' then (c as int - 32) as char else c
  }

  /** `word.charAt(0).toUpperCase() + word.slice(1)`. */
  function Capitalize(word: string): string
  {
    if word == [] then [] else [ToUpperChar(word[0])] + word[1..]
  }

  function CapitalizeWords(words: seq<string>): (r: seq<string>)
    ensures |r| == |words|
    decreases |words|
  {
    if words == [] then [] else [Capitalize(words[0])] + CapitalizeWords(words[1..])
  }

  /**
   * `getDisplayName`: split on `_`, capitalise each word, join with spaces.
   * The display name has the key's length; each `_` becomes a space at the
   * same position, the first character of each word is upper-cased, and every
   * other character is unchanged.
   */
  function GetDisplayName(settingKey: string): (name: string)
    ensures |name| == |settingKey|
    ensures forall i :: 0 <= i < |settingKey| ==> name[i] == DisplayedChar(settingKey, i)
  {
    var words := Split(settingKey, '_');
    DisplayNameMatchesReference(settingKey, true);
    assert CapitalizeAfter(words, true) == CapitalizeWords(words);
    DisplayNameFromAll(settingKey);
    Join(CapitalizeWords(words), ' ')
  }

  /**
   * The display name character by character: `_` becomes a space, the first
   * character of every `_`-separated word is upper-cased, and nothing else changes.
   */
  function DisplayedChar(settingKey: string, i: nat): char
    requires i < |settingKey|
  {
    if settingKey[i] == '_' then ' '
    else if i == 0 || settingKey[i - 1] == '_' then ToUpperChar(settingKey[i])
    else settingKey[i]
  }

  /** A reference definition of the display name, one character at a time. */
  function DisplayNameFrom(s: string, atWordStart: bool): string
    decreases |s|
  {
    if s == [] then []
    else if s[0] == '_' then " " + DisplayNameFrom(s[1..], true)
    else [if atWordStart then ToUpperChar(s[0]) else s[0]] + DisplayNameFrom(s[1..], false)
  }

  /** The words with only the first one capitalised when `capFirst`, otherwise all but the first. */
  function CapitalizeAfter(words: seq<string>, capFirst: bool): seq<string>
    requires |words| >= 1
  {
    if capFirst then CapitalizeWords(words) else [words[0]] + CapitalizeWords(words[1..])
  }

  /** Joining the capitalised words gives the reference definition. */
  lemma {:induction false} DisplayNameMatchesReference(s: string, atWordStart: bool)
    ensures Join(CapitalizeAfter(Split(s, '_'), atWordStart), ' ') == DisplayNameFrom(s, atWordStart)
    decreases |s|, 1
  {
    if s != [] {
      if s[0] == '_' {
        ReferenceAfterUnderscore(s, atWordStart);
      } else {
        ReferenceAfterChar(s, atWordStart);
      }
    }
  }

  lemma {:induction false} ReferenceAfterUnderscore(s: string, atWordStart: bool)
    requires s != [] && s[0] == '_'
    ensures Join(CapitalizeAfter(Split(s, '_'), atWordStart), ' ') == DisplayNameFrom(s, atWordStart)
    decreases |s|, 0
  {
    var rest := Split(s[1..], '_');
    DisplayNameMatchesReference(s[1..], true);
    assert CapitalizeAfter(Split(s, '_'), atWordStart) == [""] + CapitalizeWords(rest);
    JoinCons("", CapitalizeWords(rest), ' ');
  }

  lemma {:induction false} ReferenceAfterChar(s: string, atWordStart: bool)
    requires s != [] && s[0] != '_'
    ensures Join(CapitalizeAfter(Split(s, '_'), atWordStart), ' ') == DisplayNameFrom(s, atWordStart)
    decreases |s|, 0
  {
    var rest := Split(s[1..], '_');
    DisplayNameMatchesReference(s[1..], false);
    var c := if atWordStart then ToUpperChar(s[0]) else s[0];
    assert rest == [rest[0]] + rest[1..];
    assert CapitalizeAfter(Split(s, '_'), atWordStart) == [[c] + rest[0]] + CapitalizeWords(rest[1..]);
    JoinConsHead(c, rest[0], CapitalizeWords(rest[1..]), ' ');
  }

  lemma {:induction false} DisplayNameFromLength(s: string, atWordStart: bool)
    ensures |DisplayNameFrom(s, atWordStart)| == |s|
    decreases |s|
  {
    if s != [] {
      DisplayNameFromLength(s[1..], s[0] == '_');
    }
  }

  lemma {:induction false} DisplayNameFromAt(s: string, atWordStart: bool, i: nat)
    requires i < |s|
    ensures |DisplayNameFrom(s, atWordStart)| == |s|
    ensures DisplayNameFrom(s, atWordStart)[i] ==
      if s[i] == '_' then ' '
      else if (i == 0 && atWordStart) || (i > 0 && s[i - 1] == '_') then ToUpperChar(s[i])
      else s[i]
    decreases |s|
  {
    DisplayNameFromLength(s, atWordStart);
    if i > 0 {
      DisplayNameFromAt(s[1..], s[0] == '_', i - 1);
      assert s[1..][i - 1] == s[i];
      if i >= 2 {
        assert s[1..][i - 2] == s[i - 1];
      }
    }
  }

  /** The reference definition, read from the start of a key, agrees with `DisplayedChar` everywhere. */
  lemma DisplayNameFromAll(settingKey: string)
    ensures |DisplayNameFrom(settingKey, true)| == |settingKey|
    ensures forall i :: 0 <= i < |settingKey| ==> DisplayNameFrom(settingKey, true)[i] == DisplayedChar(settingKey, i)
  {
    DisplayNameFromLength(settingKey, true);
    forall i | 0 <= i < |settingKey| ensures DisplayNameFrom(settingKey, true)[i] == DisplayedChar(settingKey, i) {
      DisplayNameFromAt(settingKey, true, i);
    }
  }

  /** No underscore is left in a display name. */
  lemma DisplayNameHasNoUnderscore(settingKey: string)
    ensures '_' !in GetDisplayName(settingKey)
  {
    var name := GetDisplayName(settingKey);
    forall i | 0 <= i < |name| ensures name[i] != '_' {
      assert name[i] == DisplayedChar(settingKey, i);
    }
  }

  /** A leading word without `_` is capitalised and followed by a space in place of the `_`. */
  lemma {:induction false} DisplayNameOfFirstWord(word: string, rest: string)
    requires '_' !in word
    ensures GetDisplayName(word + "_" + rest) == Capitalize(word) + " " + GetDisplayName(rest)
  {
    SplitPrefix(word, '_', rest);
    var words := Split(rest, '_');
    assert CapitalizeWords([word] + words) == [Capitalize(word)] + CapitalizeWords(words);
    JoinCons(Capitalize(word), CapitalizeWords(words), ' ');
  }

  lemma CapitalizeNoUnderscoreWord(word: string)
    requires '_' !in word
    ensures GetDisplayName(word) == Capitalize(word)
  {
    SplitNoSep(word, '_');
  }

  /** `api_key` is shown as `Api Key`. */
  lemma DisplayNameOfApiKey()
    ensures GetDisplayName("api_key") == "Api Key"
  {
    DisplayNameOfFirstWord("api", "key");
    CapitalizeNoUnderscoreWord("key");
    assert Capitalize("api") == "Api";
    assert Capitalize("key") == "Key";
    assert "api_key" == "api" + "_" + "key";
  }

  /** Two underscores in a row give an empty word and so two spaces in a row. */
  lemma DisplayNameDoubleUnderscore()
    ensures GetDisplayName("a__b") == "A  B"
  {
    assert "a__b" == "a" + "_" + ("" + "_" + "b");
    DisplayNameOfFirstWord("a", "" + "_" + "b");
    DisplayNameOfFirstWord("", "b");
    CapitalizeNoUnderscoreWord("b");
    assert Capitalize("a") == "A";
    assert Capitalize("b") == "B";
  }

  /**
   * When the key has no spaces, splitting its display name on spaces gives
   * back the key's `_`-separated words, each capitalised.
   */
  lemma DisplayNameWords(settingKey: string)
    requires ' ' !in settingKey
    ensures Split(GetDisplayName(settingKey), ' ') == CapitalizeWords(Split(settingKey, '_'))
  {
    var words := Split(settingKey, '_');
    WordsAvoid(settingKey, '_', ' ');
    CapitalizedWordsAvoidSpace(words);
    SplitJoin(CapitalizeWords(words), ' ');
  }

  /** A character missing from `s` is missing from every piece of its split. */
  lemma {:induction false} WordsAvoid(s: string, sep: char, c: char)
    requires c !in s
    ensures forall i :: 0 <= i < |Split(s, sep)| ==> c !in Split(s, sep)[i]
    decreases |s|
  {
    if s != [] {
      WordsAvoid(s[1..], sep, c);
    }
  }

  lemma {:induction false} CapitalizedWordsAvoidSpace(words: seq<string>)
    requires forall i :: 0 <= i < |words| ==> ' ' !in words[i]
    ensures forall i :: 0 <= i < |words| ==> ' ' !in CapitalizeWords(words)[i]
    decreases |words|
  {
    if words != [] {
      CapitalizedWordsAvoidSpace(words[1..]);
      var w := words[0];
      if w != [] {
        assert Capitalize(w) == [ToUpperChar(w[0])] + w[1..];
        assert w == [w[0]] + w[1..];
      }
    }
  }

  // ---------------------------------------------------------------------------
  // Edited values

  /** `setting.setting_value || ''`. */
  function ValueOrEmpty(value: Option<string>): string
  {
    match value
    case Some(v) => v
    case None => ""
  }

  /**
   * The initial values: each row in turn sets its key, so a later row
   * overrides an earlier one. They hold exactly the keys of the loaded rows.
   */
  function InitialValues(rows: seq<AdminSetting>): (values: map<string, string>)
    ensures values.Keys == LoadedKeys(rows)
    decreases |rows|
  {
    if rows == [] then map[]
    else
      var last := rows[|rows| - 1];
      LoadedKeysSnoc(rows);
      InitialValues(rows[..|rows| - 1])[last.settingKey := ValueOrEmpty(last.settingValue)]
  }

  /** The row that is the last one with its key. */
  predicate IsLastWithKey(rows: seq<AdminSetting>, i: int)
    requires 0 <= i < |rows|
  {
    forall j :: i < j < |rows| ==> rows[j].settingKey != rows[i].settingKey
  }

  /** The keys of the loaded rows. */
  function LoadedKeys(rows: seq<AdminSetting>): set<string>
  {
    set i | 0 <= i < |rows| :: rows[i].settingKey
  }

  /** The keys of the rows are those of all rows but the last, and the last row's key. */
  lemma LoadedKeysSnoc(rows: seq<AdminSetting>)
    requires rows != []
    ensures LoadedKeys(rows) == LoadedKeys(rows[..|rows| - 1]) + {rows[|rows| - 1].settingKey}
  {
    var n := |rows| - 1;
    forall k | k in LoadedKeys(rows) ensures k in LoadedKeys(rows[..n]) + {rows[n].settingKey} {
      var i :| 0 <= i < |rows| && rows[i].settingKey == k;
      if i < n {
        assert rows[..n][i].settingKey == k;
      }
    }
    forall k | k in LoadedKeys(rows[..n]) ensures k in LoadedKeys(rows) {
      var i :| 0 <= i < n && rows[..n][i].settingKey == k;
      assert rows[i].settingKey == k;
    }
  }

  /** Each key maps to the value of the last row with that key, a missing value read as "". */
  lemma {:induction false} InitialValuesLastWins(rows: seq<AdminSetting>, i: nat)
    requires i < |rows| && IsLastWithKey(rows, i)
    ensures rows[i].settingKey in InitialValues(rows)
    ensures InitialValues(rows)[rows[i].settingKey] == ValueOrEmpty(rows[i].settingValue)
    decreases |rows|
  {
    var n := |rows| - 1;
    if i < n {
      assert rows[n].settingKey != rows[i].settingKey;
      assert IsLastWithKey(rows[..n], i);
      InitialValuesLastWins(rows[..n], i);
    }
  }

  /** The `forEach` loop of `loadSettings` that fills `initialValues`. */
  method BuildInitialValues(rows: seq<AdminSetting>) returns (values: map<string, string>)
    ensures values == InitialValues(rows)
  {
    values := map[];
    for i := 0 to |rows|
      invariant values == InitialValues(rows[..i])
    {
      assert rows[..i + 1][..i] == rows[..i];
      values := values[rows[i].settingKey := ValueOrEmpty(rows[i].settingValue)];
    }
    assert rows[..|rows|] == rows;
  }

  /** The settings endpoint's answer as `loadSettings` sees it. */
  datatype SettingsReply = Received(success: bool, data: seq<AdminSetting>) | FetchFailed

  /** The panel's state: the loaded settings and the values being edited. */
  class SettingsForm {
    var settings: seq<AdminSetting>
    var values: map<string, string>

    constructor ()
      ensures settings == [] && values == map[]
    {
      settings := [];
      values := map[];
    }

    /** `loadSettings`: on a successful reply, keep its rows and reset the values from them. */
    method LoadSettings(reply: SettingsReply)
      modifies this
      ensures reply.Received? && reply.success ==>
        settings == reply.data && values == InitialValues(reply.data)
      ensures !(reply.Received? && reply.success) ==>
        settings == old(settings) && values == old(values)
    {
      if reply.Received? && reply.success {
        settings := reply.data;
        values := BuildInitialValues(reply.data);
      }
    }

    /** `handleValueChange`: set one key, keep every other key and its value. */
    method HandleValueChange(settingKey: string, value: string)
      modifies this`values
      ensures settingKey in values && values[settingKey] == value
      ensures values.Keys == old(values).Keys + {settingKey}
      ensures forall k :: k in old(values) && k != settingKey ==> values[k] == old(values)[k]
    {
      values := values[settingKey := value];
    }
  }
}
