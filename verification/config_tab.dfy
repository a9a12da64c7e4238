/**
 * One editable row of the configuration tab: how a value typed into its
 * editor is turned into a setting, how a setting is shown and written to
 * the `.env` file, and the view/edit toggle.
 *
 * Python floats are not modelled: parsing one (`float(raw)`), printing one
 * (`str(x)`) and formatting one to two decimals are the functions of a
 * `FloatText` value, and the localised labels for True and False are
 * given with it.
 */
module ConfigTab {
  import opened Wrappers
  import opened PyText
  import Helpers

  /** The placeholder a masked field shows instead of its value. */
  const TOKEN_MASK: string := "************"

  /** The Python type a field holds. */
  datatype ValueType = TStr | TInt | TFloat | TBool

  /** A setting's value. */
  datatype Value = VStr(s: string) | VInt(i: int) | VFloat(x: real) | VBool(b: bool)

  /** What an editor widget hands back: a switch's bool, a number, text, or None. */
  datatype Raw = RawBool(b: bool) | RawInt(i: int) | RawFloat(x: real) | RawText(s: string) | RawNone

  /** A row's field: its setting name, its label, its type and whether its value is hidden. */
  datatype FieldSpec = FieldSpec(name: string, caption: string, valueType: ValueType, masked: bool)

  /** The float conversions and the labels for True and False, which the model takes as given. */
  datatype FloatText = FloatText(
    parse: Raw -> Option<real>,
    show: real -> string,
    fixed2: real -> string,
    trueLabel: string,
    falseLabel: string)

  predicate HasType(v: Value, t: ValueType) {
    match t
    case TStr => v.VStr?
    case TInt => v.VInt?
    case TFloat => v.VFloat?
    case TBool => v.VBool?
  }

  /** Python's `str(raw)`. */
  function StrOf(raw: Raw, f: FloatText): (r: string)
    ensures raw.RawText? ==> r == raw.s
    ensures raw.RawBool? ==> Lower(r) == if raw.b then "true" else "false"
    ensures raw.RawNone? ==> r == "None"
  {
    match raw
    case RawBool(b) => if b then "True" else "False"
    case RawInt(i) => IntToDecimal(i)
    case RawFloat(x) => f.show(x)
    case RawText(s) => s
    case RawNone => "None"
  }

  const TRUE_WORDS: set<string> := {"true", "1", "yes", "on"}
  const FALSE_WORDS: set<string> := {"false", "0", "no", "off"}

  /** `int(x)` for a float: truncation toward zero. */
  function Truncate(x: real): (i: int)
    ensures x >= 0.0 ==> i as real <= x < i as real + 1.0
    ensures x < 0.0 ==> i as real - 1.0 < x <= i as real
  {
    if x >= 0.0 then x.Floor else -((-x).Floor)
  }

  /** The text a non-bool value is judged by when a bool is wanted: `str(raw).strip().lower()`. */
  function BoolText(raw: Raw, f: FloatText): string {
    Lower(Strip(StrOf(raw, f)))
  }

  /**
   * _coerce_value: turns the editor's value into one of the field's type,
   * or None where the source raises ValueError.
   */
  function Coerce(raw: Raw, target: ValueType, f: FloatText): (r: Option<Value>)
    ensures r.Some? ==> HasType(r.value, target)
  {
    if target == TBool then
      if raw.RawBool? then Some(VBool(raw.b))
      else if BoolText(raw, f) in TRUE_WORDS then Some(VBool(true))
      else if BoolText(raw, f) in FALSE_WORDS then Some(VBool(false))
      else None
    else if raw == RawNone || raw == RawText("") then None
    else if target == TInt then
      match f.parse(raw)
      case None => None
      case Some(x) => Some(VInt(Truncate(x)))
    else if target == TFloat then
      match f.parse(raw)
      case None => None
      case Some(x) => Some(VFloat(x))
    else Some(VStr(StrOf(raw, f)))
  }

  /**
   * A bool field takes a switch's bool as it is, and anything else by its
   * stripped, lower-cased text: one of four words for True, one of four for
   * False, and an error for any other text.
   */
  lemma CoerceBool(raw: Raw, f: FloatText)
    ensures raw.RawBool? ==> Coerce(raw, TBool, f) == Some(VBool(raw.b))
    ensures !raw.RawBool? ==>
      && (Coerce(raw, TBool, f) == Some(VBool(true)) <==> BoolText(raw, f) in TRUE_WORDS)
      && (Coerce(raw, TBool, f) == Some(VBool(false)) <==> BoolText(raw, f) in FALSE_WORDS)
      && (Coerce(raw, TBool, f).None? <==> BoolText(raw, f) !in TRUE_WORDS + FALSE_WORDS)
  {
    assert TRUE_WORDS !! FALSE_WORDS;
  }

  /** Any other field refuses None and the empty text, and a text field takes anything else as `str(raw)`. */
  lemma CoerceOther(raw: Raw, target: ValueType, f: FloatText)
    requires target != TBool
    ensures raw == RawNone || raw == RawText("") ==> Coerce(raw, target, f).None?
    ensures target == TStr && raw != RawNone && raw != RawText("") ==> Coerce(raw, target, f) == Some(VStr(StrOf(raw, f)))
    ensures target == TInt && raw != RawNone && raw != RawText("") ==>
      Coerce(raw, target, f) == (if f.parse(raw).Some? then Some(VInt(Truncate(f.parse(raw).value))) else None)
  {
  }

  /** _serialize_env_value: "true"/"false" for a bool, `str(value)` for anything else. */
  function SerializeEnv(v: Value, f: FloatText): (s: string)
    ensures v.VBool? ==> s == (if v.b then "true" else "false")
    ensures v.VStr? ==> s == v.s
  {
    match v
    case VBool(b) => if b then "true" else "false"
    case VInt(i) => IntToDecimal(i)
    case VFloat(x) => f.show(x)
    case VStr(s) => s
  }

  /** Text without upper-case letters or surrounding space is its own bool text. */
  lemma PlainBoolText(s: string, f: FloatText)
    requires Trimmed(s) && forall k :: 0 <= k < |s| ==> !('A' <= s[k] <= 'Z')
    ensures BoolText(RawText(s), f) == s
  {
    StripTrimmed(s);
    assert Lower(s) == s;
  }

  /** A bool written to the `.env` file and typed back into a bool field gives the same bool. */
  lemma BoolRoundTrip(b: bool, f: FloatText)
    ensures Coerce(RawText(SerializeEnv(VBool(b), f)), TBool, f) == Some(VBool(b))
  {
    var s := if b then "true" else "false";
    assert SerializeEnv(VBool(b), f) == s;
    PlainBoolText(s, f);
    CoerceBool(RawText(s), f);
    if b {
      assert s in TRUE_WORDS;
    } else {
      assert s in FALSE_WORDS;
    }
  }

  /** Text coerced into a text field and written out comes back unchanged. */
  lemma TextRoundTrip(s: string, f: FloatText)
    requires s != ""
    ensures Coerce(RawText(s), TStr, f) == Some(VStr(s))
    ensures SerializeEnv(Coerce(RawText(s), TStr, f).value, f) == s
  {
  }

  /** _format_value: the mask for a masked field, else the value as the view shows it. */
  function FormatValue(spec: FieldSpec, v: Value, f: FloatText): (s: string)
    ensures spec.masked ==> s == TOKEN_MASK
    ensures !spec.masked && v.VBool? ==> s == (if v.b then f.trueLabel else f.falseLabel)
    ensures !spec.masked && v.VStr? ==> s == v.s
  {
    if spec.masked then TOKEN_MASK
    else match v
      case VBool(b) => if b then f.trueLabel else f.falseLabel
      case VFloat(x) => f.fixed2(x)
      case VInt(i) => IntToDecimal(i)
      case VStr(s) => s
  }

  /** The `.env` key a field is written under: its name upper-cased. */
  function EnvKey(name: string): (key: string)
    ensures |key| == |name|
    ensures forall k :: 0 <= k < |name| ==> key[k] == UpperChar(name[k])
  {
    Upper(name)
  }

  /** Python's `bool(value)`. */
  function Truthy(v: Value): bool {
    match v
    case VBool(b) => b
    case VInt(i) => i != 0
    case VFloat(x) => x != 0.0
    case VStr(s) => s != ""
  }

  /** Python's `str(value)`. */
  function ValueText(v: Value, f: FloatText): string {
    match v
    case VBool(b) => if b then "True" else "False"
    case VInt(i) => IntToDecimal(i)
    case VFloat(x) => f.show(x)
    case VStr(s) => s
  }

  /** _sync_editor_value: what the editor holds when editing starts. */
  function EditorValue(v: Value, t: ValueType, f: FloatText): (r: Raw)
    ensures r != RawNone
    ensures t == TBool ==> r.RawBool?
    ensures t == TStr ==> r.RawText?
    ensures HasType(v, t) && t == TBool ==> r == RawBool(v.b)
    ensures HasType(v, t) && t == TInt ==> r == RawInt(v.i)
    ensures HasType(v, t) && t == TFloat ==> r == RawFloat(v.x)
  {
    match t
    case TBool => RawBool(Truthy(v))
    case TStr => RawText(ValueText(v, f))
    case _ =>
      match v
      case VBool(b) => RawBool(b)
      case VInt(i) => RawInt(i)
      case VFloat(x) => RawFloat(x)
      case VStr(s) => RawText(s)
  }

  /** Starting an edit and saving at once keeps the value of a well-typed bool, int or text field. */
  lemma SyncThenCoerce(v: Value, t: ValueType, f: FloatText)
    requires HasType(v, t) && (t == TBool || (t == TStr && v.s != ""))
    ensures Coerce(EditorValue(v, t, f), t, f) == Some(v)
  {
  }

  /** The configuration object the rows edit: setting name to value. */
  class Settings {
    var values: map<string, Value>

    constructor (values: map<string, Value>)
      ensures this.values == values
    {
      this.values := values;
    }
  }

  /** The `.env` file: its text, or None when it does not exist. */
  class EnvFile {
    var text: Option<string>

    constructor (text: Option<string>)
      ensures this.text == text
    {
      this.text := text;
    }
  }

  class ConfigFieldRow {
    const settings: Settings
    const envFile: EnvFile
    const spec: FieldSpec
    const floats: FloatText
    var editing: bool
    /** The editor widget's value. */
    var editorValue: Raw
    /** The view label's text. */
    var shownText: string

    /** A new row starts in view mode, showing the current value. */
    constructor (settings: Settings, spec: FieldSpec, envFile: EnvFile, floats: FloatText)
      requires spec.name in settings.values
      ensures this.settings == settings && this.spec == spec && this.envFile == envFile && this.floats == floats
      ensures !editing
      ensures shownText == FormatValue(spec, settings.values[spec.name], floats)
      ensures editorValue == EditorValue(settings.values[spec.name], spec.valueType, floats)
    {
      this.settings := settings;
      this.envFile := envFile;
      this.spec := spec;
      this.floats := floats;
      editing := false;
      shownText := FormatValue(spec, settings.values[spec.name], floats);
      editorValue := EditorValue(settings.values[spec.name], spec.valueType, floats);
    }

    /** The user changes the editor's content. */
    method Type(raw: Raw)
      modifies this
      ensures editorValue == raw
      ensures editing == old(editing) && shownText == old(shownText)
    {
      editorValue := raw;
    }

    /** _start_edit: enters edit mode with the editor showing the current value. */
    method StartEdit()
      requires spec.name in settings.values
      modifies this
      ensures editing
      ensures editorValue == EditorValue(settings.values[spec.name], spec.valueType, floats)
      ensures shownText == old(shownText)
    {
      editing := true;
      editorValue := EditorValue(settings.values[spec.name], spec.valueType, floats);
    }

    /** _persist_env_value: reads the `.env` file, sets the field's key, writes it all back. */
    method PersistEnvValue(v: Value)
      modifies envFile
      ensures envFile.text == Some(Helpers.Serialize(Helpers.Put(Helpers.ReadEnv(old(envFile.text)), EnvKey(spec.name), SerializeEnv(v, floats))))
    {
      var envKey := EnvKey(spec.name);
      var envValues := Helpers.ReadEnvFile(envFile.text);
      envValues := Helpers.Put(envValues, envKey, SerializeEnv(v, floats));
      var written := Helpers.WriteEnvFile(envValues);
      envFile.text := Some(written);
    }

    /**
     * _save_value: an editor value that does not coerce changes nothing and
     * leaves the row in edit mode; one that does becomes the setting, is
     * shown, is written to the `.env` file, and ends edit mode.
     */
    method SaveValue()
      modifies this, settings, envFile
      ensures Coerce(old(editorValue), spec.valueType, floats).None? ==>
        && editing == old(editing) && shownText == old(shownText)
        && settings.values == old(settings.values) && envFile.text == old(envFile.text)
      ensures Coerce(old(editorValue), spec.valueType, floats).Some? ==>
        var v := Coerce(old(editorValue), spec.valueType, floats).value;
        && !editing
        && settings.values == old(settings.values)[spec.name := v]
        && shownText == FormatValue(spec, v, floats)
        && envFile.text == Some(Helpers.Serialize(Helpers.Put(Helpers.ReadEnv(old(envFile.text)), EnvKey(spec.name), SerializeEnv(v, floats))))
      ensures editorValue == old(editorValue)
    {
      var newValue := Coerce(editorValue, spec.valueType, floats);
      if newValue.None? {
        return;
      }
      settings.values := settings.values[spec.name := newValue.value];
      shownText := FormatValue(spec, newValue.value, floats);
      PersistEnvValue(newValue.value);
      editing := false;
    }

    /**
     * _toggle_edit: saves when editing, else starts editing. Starting
     * syncs the editor and touches neither the setting nor the file; a
     * save that does not coerce changes nothing and stays in edit mode; one
     * that does stores, shows and persists the value and leaves edit mode.
     */
    method ToggleEdit()
      requires spec.name in settings.values
      modifies this, settings, envFile
      ensures !old(editing) ==>
        && editing && spec.name in settings.values
        && editorValue == EditorValue(settings.values[spec.name], spec.valueType, floats)
        && shownText == old(shownText)
        && settings.values == old(settings.values) && envFile.text == old(envFile.text)
      ensures old(editing) ==> editorValue == old(editorValue)
      ensures old(editing) && Coerce(old(editorValue), spec.valueType, floats).None? ==>
        && editing && shownText == old(shownText)
        && settings.values == old(settings.values) && envFile.text == old(envFile.text)
      ensures old(editing) && Coerce(old(editorValue), spec.valueType, floats).Some? ==>
        var v := Coerce(old(editorValue), spec.valueType, floats).value;
        && !editing
        && settings.values == old(settings.values)[spec.name := v]
        && shownText == FormatValue(spec, v, floats)
        && envFile.text == Some(Helpers.Serialize(Helpers.Put(Helpers.ReadEnv(old(envFile.text)), EnvKey(spec.name), SerializeEnv(v, floats))))
    {
      if editing {
        SaveValue();
      } else {
        StartEdit();
      }
    }
  }

  /**
   * After a save, reading the `.env` file back finds the field's key holding
   * the serialised value, and every other key as it was, provided the key
   * and value survive the file format.
   */
  lemma SavedSettingReadsBack(before: Option<string>, spec: FieldSpec, v: Value, f: FloatText, other: string)
    requires Helpers.Writable(EnvKey(spec.name), SerializeEnv(v, f))
    ensures var after := Some(Helpers.Serialize(Helpers.Put(Helpers.ReadEnv(before), EnvKey(spec.name), SerializeEnv(v, f))));
      && Helpers.Get(Helpers.ReadEnv(after), EnvKey(spec.name)) == Some(SerializeEnv(v, f))
      && (other != EnvKey(spec.name) ==> Helpers.Get(Helpers.ReadEnv(after), other) == Helpers.Get(Helpers.ReadEnv(before), other))
  {
    var key := EnvKey(spec.name);
    var val := SerializeEnv(v, f);
    Helpers.UpdateThenRead(before, key, val);
    Helpers.PutGet(Helpers.ReadEnv(before), key, val, key);
    Helpers.PutGet(Helpers.ReadEnv(before), key, val, other);
  }
}
