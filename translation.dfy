/** The translation lookup of LanguageContext.tsx: the initial language, and `t`, which walks a
    dotted key through the current language's JSON tree, falls back to English, and fills in
    `{{name}}` placeholders. */
module Translation {
  import opened Text

  datatype Language = En | Es | Fr | Ms | Ta | Zh

  /** The code under which a language is stored. */
  function Code(l: Language): string {
    match l
    case En => "en"
    case Es => "es"
    case Fr => "fr"
    case Ms => "ms"
    case Ta => "ta"
    case Zh => "zh"
  }

  /** A value of a locale file: a string, an object of named members, or any other leaf
      (number, boolean, null). */
  datatype Json = Str(text: string) | Obj(members: map<string, Json>) | Leaf

  /** The six locale files. */
  datatype Tables = Tables(en: Json, es: Json, fr: Json, ms: Json, ta: Json, zh: Json) {
    function Of(l: Language): Json {
      match l
      case En => en
      case Es => es
      case Fr => fr
      case Ms => ms
      case Ta => ta
      case Zh => zh
    }
  }

  // ---------------------------------------------------------------------------
  // Initial language

  /** The saved language if it is one of the six codes, and English otherwise. */
  function InitialLanguage(saved: Option<string>): (l: Language)
    ensures saved.Some? && (exists m :: Code(m) == saved.value) ==> Code(l) == saved.value
    ensures !(saved.Some? && exists m :: Code(m) == saved.value) ==> l == En
  {
    if saved == Some("en") then En
    else if saved == Some("es") then Es
    else if saved == Some("fr") then Fr
    else if saved == Some("ms") then Ms
    else if saved == Some("ta") then Ta
    else if saved == Some("zh") then Zh
    else En
  }

  /** The language state and its copy in local storage. */
  class LanguageProvider {
    var language: Language
    var saved: Option<string>

    constructor (stored: Option<string>)
      ensures saved == stored && language == InitialLanguage(stored)
    {
      saved := stored;
      language := InitialLanguage(stored);
    }

    /** setLanguage: switches the language and saves its code. */
    method SetLanguage(l: Language)
      modifies this
      ensures language == l && saved == Some(Code(l))
      ensures InitialLanguage(saved) == language
    {
      language := l;
      saved := Some(Code(l));
    }
  }

  /** A chosen language survives a reload: the saved code is read back as that language. */
  lemma ReloadKeepsLanguage(l: Language)
    ensures InitialLanguage(Some(Code(l))) == l
  {
  }

  // ---------------------------------------------------------------------------
  // Walking a dotted path

  /** The value at the end of `path`, or None when some segment is not a member of an object. */
  function Walk(v: Json, path: seq<string>): Option<Json>
    decreases |path|
  {
    if path == [] then Some(v)
    else if v.Obj? && path[0] in v.members then Walk(v.members[path[0]], path[1..])
    else None
  }

  /** Walking a path in two parts is walking the first part and then the second. */
  lemma {:induction false} WalkAppend(v: Json, a: seq<string>, b: seq<string>)
    ensures Walk(v, a + b) == match Walk(v, a) case None => None case Some(w) => Walk(w, b)
    decreases |a|
  {
    if a == [] {
      assert a + b == b;
    } else {
      assert (a + b)[0] == a[0];
      assert (a + b)[1..] == a[1..] + b;
      if v.Obj? && a[0] in v.members {
        assert Walk(v, a + b) == Walk(v.members[a[0]], a[1..] + b);
        WalkAppend(v.members[a[0]], a[1..], b);
      }
    }
  }

  /** The current language's value at the path if every segment is found there, and
      otherwise English's value at the whole path. */
  function Resolve(tables: Tables, lang: Language, path: seq<string>): Option<Json> {
    match Walk(tables.Of(lang), path)
    case Some(v) => Some(v)
    case None => Walk(tables.en, path)
  }

  // ---------------------------------------------------------------------------
  // Placeholder substitution: value.replace(/\{\{(\w+)\}\}/g, ...)

  /** The length of the name when `s` starts with `{{name}}`. */
  function PlaceholderAt(s: string): (r: Option<nat>)
    ensures r.Some? ==> 1 <= r.value && r.value + 4 <= |s|
  {
    if |s| >= 2 && s[0] == '{' && s[1] == '{' then
      var n := WordRun(s[2..]);
      if n >= 1 && n + 4 <= |s| && s[n + 2] == '}' && s[n + 3] == '}' then Some(n) else None
    else None
  }

  /** A placeholder is replaced by its parameter when that is given and not empty, and is
      otherwise kept as it stands. */
  function Replacement(name: string, placeholder: string, params: map<string, string>): string {
    if name in params && params[name] != "" then params[name] else placeholder
  }

  /** Every `{{name}}`, scanning left to right without overlaps, replaced. */
  function Substitute(s: string, params: map<string, string>): string
    decreases |s|
  {
    if s == [] then []
    else match PlaceholderAt(s)
      case Some(n) => Replacement(s[2..n + 2], s[..n + 4], params) + Substitute(s[n + 4..], params)
      case None => [s[0]] + Substitute(s[1..], params)
  }

  /** `{{` followed by `name` and `}}`. */
  function Placeholder(name: string): string {
    "{{" + name + "}}"
  }

  predicate IsName(name: string) {
    name != [] && forall i :: 0 <= i < |name| ==> IsWordChar(name[i])
  }

  /** With no parameters every placeholder is kept, so the text is unchanged. */
  lemma {:induction false} SubstituteNoParams(s: string)
    ensures Substitute(s, map[]) == s
    decreases |s|
  {
    if s != [] {
      match PlaceholderAt(s)
      case Some(n) =>
        SubstituteNoParams(s[n + 4..]);
        assert s[..n + 4] + s[n + 4..] == s;
      case None =>
        SubstituteNoParams(s[1..]);
        assert [s[0]] + s[1..] == s;
    }
  }

  /** Text without a `{` is copied as it stands. */
  lemma {:induction false} SubstitutePlain(a: string, rest: string, params: map<string, string>)
    requires '{' !in a
    ensures Substitute(a + rest, params) == a + Substitute(rest, params)
    decreases |a|
  {
    if a != [] {
      var s := a + rest;
      assert s[0] == a[0] && s[1..] == a[1..] + rest;
      SubstituteOrdinary(s, params);
      SubstitutePlain(a[1..], rest, params);
      assert [a[0]] + (a[1..] + Substitute(rest, params)) == a + Substitute(rest, params);
    } else {
      assert a + rest == rest;
    }
  }

  /** A text that does not start with `{` keeps its first character. */
  lemma SubstituteOrdinary(s: string, params: map<string, string>)
    requires s != [] && s[0] != '{'
    ensures Substitute(s, params) == [s[0]] + Substitute(s[1..], params)
  {
  }


  /** A placeholder is replaced by a given, non-empty parameter and otherwise left verbatim;
      the rest of the text is processed independently. */
  lemma SubstitutePlaceholder(name: string, rest: string, params: map<string, string>)
    requires IsName(name)
    ensures Substitute(Placeholder(name) + rest, params)
      == (if name in params && params[name] != "" then params[name] else Placeholder(name))
         + Substitute(rest, params)
  {
    var s := Placeholder(name) + rest;
    var n := |name|;
    assert s[2..] == name + "}}" + rest;
    WordRunOfName(name, "}}" + rest);
    assert s[2..] == name + ("}}" + rest);
    assert s[n + 2] == '}' && s[n + 3] == '}';
    assert PlaceholderAt(s) == Some(n);
    assert s[2..n + 2] == name;
    assert s[..n + 4] == Placeholder(name);
    assert s[n + 4..] == rest;
  }

  lemma {:induction false} WordRunOfName(name: string, rest: string)
    requires forall i :: 0 <= i < |name| ==> IsWordChar(name[i])
    requires rest != [] && !IsWordChar(rest[0])
    ensures WordRun(name + rest) == |name|
    decreases |name|
  {
    if name == [] {
      assert name + rest == rest;
    } else {
      assert (name + rest)[1..] == name[1..] + rest;
      WordRunOfName(name[1..], rest);
    }
  }

  // ---------------------------------------------------------------------------
  // The lookup

  /** What `t(key, params)` returns. */
  function TranslateSpec(tables: Tables, lang: Language, key: string, params: Option<map<string, string>>): string {
    match Resolve(tables, lang, Split(key, '.'))
    case Some(Str(text)) => if params.Some? then Substitute(text, params.value) else text
    case _ => key
  }

  /** t: walks the path through the current language; at the first missing segment it walks
      the whole path again through English, and gives back `key` if that fails too. A value
      that is not a string also gives back `key`. */
  method Translate(tables: Tables, lang: Language, key: string, params: Option<map<string, string>>) returns (r: string)
    ensures r == TranslateSpec(tables, lang, key, params)
  {
    var keys := Split(key, '.');
    var value := tables.Of(lang);
    ghost var found := Walk(tables.Of(lang), keys);
    for i := 0 to |keys|
      invariant Walk(value, keys[i..]) == Walk(tables.Of(lang), keys)
      invariant found == Walk(tables.Of(lang), keys)
    {
      var k := keys[i];
      assert keys[i..][0] == k && keys[i..][1..] == keys[i + 1..];
      if value.Obj? && k in value.members {
        value := value.members[k];
      } else {
        value := tables.en;
        for j := 0 to |keys|
          invariant Walk(value, keys[j..]) == Walk(tables.en, keys)
        {
          assert keys[j..][0] == keys[j] && keys[j..][1..] == keys[j + 1..];
          if value.Obj? && keys[j] in value.members {
            value := value.members[keys[j]];
          } else {
            return key;
          }
        }
        assert keys[|keys|..] == [];
        found := Walk(tables.en, keys);
        break;
      }
    }
    assert Resolve(tables, lang, keys) == Some(value) by {
      assert keys[|keys|..] == [];
    }
    if !value.Str? {
      return key;
    }
    if params.Some? {
      return Substitute(value.text, params.value);
    }
    return value.text;
  }

  // ---------------------------------------------------------------------------
  // Properties of the lookup

  /** A string found along the whole path in the current language is the answer. */
  lemma FoundInCurrent(tables: Tables, lang: Language, key: string, text: string)
    requires Walk(tables.Of(lang), Split(key, '.')) == Some(Str(text))
    ensures TranslateSpec(tables, lang, key, None) == text
    ensures forall p :: TranslateSpec(tables, lang, key, Some(p)) == Substitute(text, p)
  {
  }

  /** A value found in the current language that is not a string gives the key, even when
      English has a string there. */
  lemma NonStringInCurrent(tables: Tables, lang: Language, key: string, params: Option<map<string, string>>)
    requires Walk(tables.Of(lang), Split(key, '.')).Some? && !Walk(tables.Of(lang), Split(key, '.')).value.Str?
    ensures TranslateSpec(tables, lang, key, params) == key
  {
  }

  /** When a segment is missing in the current language, English decides. */
  lemma FallsBackToEnglish(tables: Tables, lang: Language, key: string, params: Option<map<string, string>>)
    requires Walk(tables.Of(lang), Split(key, '.')).None?
    ensures TranslateSpec(tables, lang, key, params) == TranslateSpec(tables, En, key, params)
  {
  }

  /** Missing in both the current language and English, the key itself is shown. */
  lemma MissingGivesKey(tables: Tables, lang: Language, key: string, params: Option<map<string, string>>)
    requires Walk(tables.Of(lang), Split(key, '.')).None? && Walk(tables.en, Split(key, '.')).None?
    ensures TranslateSpec(tables, lang, key, params) == key
  {
  }

  /** A one-segment key present as a string member of the current language's root. */
  lemma TopLevelKey(tables: Tables, lang: Language, key: string, text: string)
    requires '.' !in key
    requires tables.Of(lang).Obj? && key in tables.Of(lang).members && tables.Of(lang).members[key] == Str(text)
    ensures TranslateSpec(tables, lang, key, None) == text
  {
    SplitNoSep(key, '.');
    var root := tables.Of(lang);
    assert Walk(root, [key]) == Walk(root.members[key], []);
  }

  /** Two-segment key `section.name`: the nested string, with its placeholder filled in. */
  lemma NestedKeyWithParam(section: string, name: string, param: string, value: string, lead: string)
    requires '.' !in section && '.' !in name && IsName(param) && value != "" && '{' !in lead
    ensures var tables := Tables(Obj(map[section := Obj(map[name := Str(lead + Placeholder(param))])]), Leaf, Leaf, Leaf, Leaf, Leaf);
      TranslateSpec(tables, Es, section + "." + name, Some(map[param := value])) == lead + value
  {
    var tables := Tables(Obj(map[section := Obj(map[name := Str(lead + Placeholder(param))])]), Leaf, Leaf, Leaf, Leaf, Leaf);
    var key := section + "." + name;
    var params := map[param := value];
    assert key == section + ['.'] + name;
    SplitPrefix(section, name, '.');
    SplitNoSep(name, '.');
    var path := Split(key, '.');
    assert path == [section, name];
    assert Walk(tables.Of(Es), path).None?;
    var inner := Obj(map[name := Str(lead + Placeholder(param))]);
    assert Walk(tables.en, path) == Walk(inner, [name]) by {
      assert path[1..] == [name];
    }
    assert Walk(inner, [name]) == Walk(Str(lead + Placeholder(param)), []);
    assert Resolve(tables, Es, path) == Some(Str(lead + Placeholder(param)));
    SubstitutePlain(lead, Placeholder(param), params);
    SubstitutePlaceholder(param, "", params);
    assert Placeholder(param) + "" == Placeholder(param);
    assert Substitute(lead + Placeholder(param), params) == lead + value;
  }
}
