/** The settings page (`src/app/settings/page.jsx`): a JSON-like settings
    object, its defaults, the path update behind every control, the merge
    when saved settings are loaded, and the theme and font-size effects. */
module Settings {
  import opened Js

  /** The values a settings object holds. */
  datatype Value =
    | Str(s: string)
    | Bool(b: bool)
    | Num(x: real)
    | List(items: seq<Value>)
    | Obj(fields: map<string, Value>)

  type Settings = map<string, Value>

  /** The initial settings, which `resetToDefaults` restores too. */
  function Defaults(): Settings {
    map[
      "language" := Str("vi"),
      "voiceSpeed" := List([Num(1.0)]),
      "voiceGender" := Str("female"),
      "theme" := Str("light"),
      "notifications" := Obj(map[
        "dailyReminder" := Bool(true),
        "studyStreak" := Bool(true),
        "achievements" := Bool(true),
        "weeklyReport" := Bool(false)]),
      "accessibility" := Obj(map[
        "fontSize" := Str("medium"),
        "highContrast" := Bool(false),
        "reduceMotion" := Bool(false)])]
  }

  /** A thrown `TypeError` or a value. */
  datatype Result<T> = Ok(value: T) | TypeError

  /** The value at a key path, when every step before the last lands on an
      object holding the next key. */
  function Lookup(m: Settings, keys: seq<string>): Option<Value>
    requires |keys| >= 1
    decreases |keys|
  {
    if keys[0] !in m then None
    else if |keys| == 1 then Some(m[keys[0]])
    else if m[keys[0]].Obj? then Lookup(m[keys[0]].fields, keys[1..])
    else None
  }

  /** Every key but the last names an object on the way: the condition under
      which the walk `current = current[keys[i]]` reaches an object to assign
      into. */
  predicate Walkable(m: Settings, keys: seq<string>)
    requires |keys| >= 1
  {
    |keys| == 1 || (var p := Lookup(m, keys[..|keys| - 1]); p.Some? && p.value.Obj?)
  }

  /** The dotted-path branch of `updateSetting`: walk to the parent object
      and assign the last key. A step onto a missing key (`undefined`) or a
      non-object throws. */
  function SetPath(m: Settings, keys: seq<string>, value: Value): (r: Result<Settings>)
    requires |keys| >= 1
    ensures r.Ok? <==> Walkable(m, keys)
    ensures r.Ok? ==> Lookup(r.value, keys) == Some(value)
    ensures r.Ok? ==> r.value.Keys == m.Keys + {keys[0]}
    ensures r.Ok? ==> forall k :: k in m && k != keys[0] ==> r.value[k] == m[k]
    decreases |keys|
  {
    if |keys| == 1 then Ok(m[keys[0] := value])
    else if keys[0] in m && m[keys[0]].Obj? then
      var rest := keys[1..];
      assert keys[..|keys| - 1][1..] == rest[..|rest| - 1];
      match SetPath(m[keys[0]].fields, rest, value)
      case Ok(inner) => Ok(m[keys[0] := Obj(inner)])
      case TypeError => TypeError
    else
      assert keys[..|keys| - 1][0] == keys[0];
      TypeError
  }

  /** Two key paths part ways at some position. */
  predicate Diverge(a: seq<string>, b: seq<string>) {
    exists i :: 0 <= i < |a| && i < |b| && a[i] != b[i]
  }

  /** An update leaves every value on a path that parts ways with the
      updated one as it was. */
  lemma {:induction false} SetPathFrame(m: Settings, keys: seq<string>, value: Value, other: seq<string>)
    requires |keys| >= 1 && |other| >= 1 && Diverge(keys, other)
    requires SetPath(m, keys, value).Ok?
    ensures Lookup(SetPath(m, keys, value).value, other) == Lookup(m, other)
    decreases |keys|
  {
    if keys[0] == other[0] {
      var i :| 0 <= i < |keys| && i < |other| && keys[i] != other[i];
      assert i > 0;
      assert keys[1..][i - 1] != other[1..][i - 1];
      SetPathFrame(m[keys[0]].fields, keys[1..], value, other[1..]);
    }
  }

  /** `updateSetting(path, value)`: a path with a dot goes down the key
      path, any other path sets a top-level key. */
  function UpdateSetting(prev: Settings, path: string, value: Value): (r: Result<Settings>)
    ensures '.' !in path ==> r == Ok(prev[path := value])
    ensures '.' in path ==> |Split(path, '.')| >= 2 && r == SetPath(prev, Split(path, '.'), value)
  {
    if '.' in path then
      SplitJoin(path, '.');
      SplitAtLeastTwo(path);
      SetPath(prev, Split(path, '.'), value)
    else Ok(prev[path := value])
  }

  lemma SplitAtLeastTwo(path: string)
    requires '.' in path
    ensures |Split(path, '.')| >= 2
  {
    SplitJoin(path, '.');
  }

  /** Reading the updated path back gives the new value, whether the path
      had a dot or not. */
  lemma UpdateThenRead(prev: Settings, path: string, value: Value)
    requires UpdateSetting(prev, path, value).Ok?
    ensures Lookup(UpdateSetting(prev, path, value).value, Split(path, '.')) == Some(value)
  {
    if '.' !in path {
      assert Split(path, '.') == [path];
    }
  }

  /** The page's settings shape: the two groups the controls write into are
      objects. */
  predicate Shaped(s: Settings) {
    && "notifications" in s && s["notifications"].Obj?
    && "accessibility" in s && s["accessibility"].Obj?
  }

  lemma DefaultsShaped()
    ensures Shaped(Defaults())
    ensures Lookup(Defaults(), ["theme"]) == Some(Str("light"))
  {
  }

  /** Every control's update succeeds on shaped settings and keeps them
      shaped: a two-key path into one of the groups. */
  lemma GroupUpdateKeepsShape(s: Settings, group: string, key: string, value: Value)
    requires Shaped(s) && (group == "notifications" || group == "accessibility")
    ensures SetPath(s, [group, key], value).Ok?
    ensures Shaped(SetPath(s, [group, key], value).value)
    ensures Lookup(SetPath(s, [group, key], value).value, [group, key]) == Some(value)
  {
    assert [group, key][..1] == [group];
    assert [group, key][1..] == [key];
  }

  /** `resetToDefaults`, after the confirmation dialog. */
  function ResetToDefaults(s: Settings, confirmed: bool): (r: Settings)
    ensures confirmed ==> Shaped(r) && Lookup(r, ["theme"]) == Some(Str("light"))
    ensures confirmed ==> r == Defaults()
    ensures !confirmed ==> r == s
  {
    if confirmed then Defaults() else s
  }

  /** Loading saved settings: `{...prev, ...parsed}`, saved keys winning. */
  function LoadMerge(prev: Settings, parsed: Settings): (r: Settings)
    ensures r.Keys == prev.Keys + parsed.Keys
    ensures forall k :: k in parsed ==> r[k] == parsed[k]
    ensures forall k :: k in prev && k !in parsed ==> r[k] == prev[k]
  {
    prev + parsed
  }

  /** Saved settings with all the current keys come back exactly; nothing
      saved changes nothing. */
  lemma LoadSaved(prev: Settings, saved: Settings)
    requires prev.Keys <= saved.Keys
    ensures LoadMerge(prev, saved) == saved
    ensures LoadMerge(prev, map[]) == prev
  {
  }

  /** Loading after a reset gives the saved settings over the defaults:
      keys the save lacks keep their default values. */
  lemma LoadOverDefaults(saved: Settings, k: string)
    requires k in Defaults() && k !in saved
    ensures LoadMerge(Defaults(), saved)[k] == Defaults()[k]
  {
  }

  // ---------------------------------------------------------------------------
  // Effects of saving

  /** `applyTheme(theme)`: whether the root element carries `dark` afterwards,
      given whether it did before and the system preference. Unknown themes
      leave it alone. */
  function ApplyTheme(theme: string, prefersDark: bool, dark: bool): (r: bool)
    ensures theme == "dark" ==> r
    ensures theme == "light" ==> !r
    ensures theme == "auto" ==> r == prefersDark
    ensures theme !in {"dark", "light", "auto"} ==> r == dark
  {
    if theme == "dark" then true
    else if theme == "light" then false
    else if theme == "auto" then prefersDark
    else dark
  }

  /** Applying a theme twice is applying it once. */
  lemma ApplyThemeIdempotent(theme: string, prefersDark: bool, dark: bool)
    ensures ApplyTheme(theme, prefersDark, ApplyTheme(theme, prefersDark, dark))
         == ApplyTheme(theme, prefersDark, dark)
  {
  }

  /** The `--font-size-multiplier` for a `fontSize` value. */
  function FontMultiplier(fontSize: Option<Value>): (r: string)
    ensures fontSize == Some(Str("small")) ==> r == "0.875"
    ensures fontSize == Some(Str("large")) ==> r == "1.125"
    ensures fontSize != Some(Str("small")) && fontSize != Some(Str("large")) ==> r == "1"
  {
    if fontSize == Some(Str("small")) then "0.875"
    else if fontSize == Some(Str("large")) then "1.125"
    else "1"
  }

  /** JavaScript truthiness of a setting (`undefined` for a missing one). */
  predicate ValueTruthy(v: Option<Value>) {
    match v
    case None => false
    case Some(Str(s)) => s != ""
    case Some(Bool(b)) => b
    case Some(Num(x)) => x != 0.0
    case Some(List(_)) => true
    case Some(Obj(_)) => true
  }

  /** The classes and multiplier `applyAccessibilitySettings` puts on the
      root element; reading `settings.accessibility.*` throws when the group
      is missing. */
  datatype Accessibility = Accessibility(multiplier: string, highContrast: bool, reduceMotion: bool)

  function ApplyAccessibility(s: Settings): (r: Result<Accessibility>)
    ensures r.TypeError? <==> "accessibility" !in s
    ensures r.Ok? ==>
      && r.value.multiplier == FontMultiplier(Lookup(s, ["accessibility", "fontSize"]))
      && r.value.highContrast == ValueTruthy(Lookup(s, ["accessibility", "highContrast"]))
      && r.value.reduceMotion == ValueTruthy(Lookup(s, ["accessibility", "reduceMotion"]))
  {
    if "accessibility" !in s then TypeError
    else
      var a := s["accessibility"];
      var field := (k: string) => if a.Obj? && k in a.fields then Some(a.fields[k]) else None;
      assert ["accessibility", "fontSize"][1..] == ["fontSize"];
      assert ["accessibility", "highContrast"][1..] == ["highContrast"];
      assert ["accessibility", "reduceMotion"][1..] == ["reduceMotion"];
      Ok(Accessibility(FontMultiplier(field("fontSize")), ValueTruthy(field("highContrast")), ValueTruthy(field("reduceMotion"))))
  }

  /** The font-size control's path splits into its group and key. */
  lemma FontSizePath()
    ensures '.' in "accessibility.fontSize"
    ensures Split("accessibility.fontSize", '.') == ["accessibility", "fontSize"]
  {
    var keys := ["accessibility", "fontSize"];
    assert "accessibility.fontSize"[13] == '.';
    assert "accessibility" + "." + "fontSize" == "accessibility.fontSize";
    JoinCons(keys, ".");
    assert Join(keys, ".") == "accessibility.fontSize";
    assert '.' !in keys[0] && '.' !in keys[1];
    JoinSplit(keys, '.');
  }

  lemma DefaultAccessibility()
    ensures ApplyAccessibility(Defaults()) == Ok(Accessibility("1", false, false))
  {
    assert Defaults()["accessibility"].fields["fontSize"] == Str("medium");
  }

  /** The defaults give the normal size and neither class; choosing "large"
      in the font-size control gives the 1.125 multiplier. */
  lemma AccessibilityExamples()
    ensures ApplyAccessibility(Defaults()) == Ok(Accessibility("1", false, false))
    ensures var r := UpdateSetting(Defaults(), "accessibility.fontSize", Str("large"));
      r.Ok? && ApplyAccessibility(r.value).Ok? && ApplyAccessibility(r.value).value.multiplier == "1.125"
  {
    DefaultAccessibility();
    FontSizePath();
    var d := Defaults();
    DefaultsShaped();
    var keys := ["accessibility", "fontSize"];
    var r := UpdateSetting(d, "accessibility.fontSize", Str("large"));
    assert r == SetPath(d, keys, Str("large"));
    GroupUpdateKeepsShape(d, "accessibility", "fontSize", Str("large"));
    assert r.Ok? && Shaped(r.value);
    assert Lookup(r.value, keys) == Some(Str("large"));
    assert ApplyAccessibility(r.value).value.multiplier == FontMultiplier(Some(Str("large")));
  }
}
