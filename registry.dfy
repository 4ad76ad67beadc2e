/**
 * The script/font pairing registry: the downloadable fonts, which fonts are known to render
 * each script correctly (the first one is the recommended default), the riwayah of each
 * script, and the short codes used in output filenames. Python's insertion-ordered dicts are
 * association lists here, so key order (used in warning texts) is kept.
 */
module Registry {
  import opened Wrappers
  import opened Text

  /** Metadata for a downloadable font. */
  datatype FontInfo = FontInfo(
    key: string,
    family: string,
    filename: string,
    sourceUrl: string,
    zipPath: Option<string>,
    license: string,
    sha256: Option<string>)

  /** An insertion-ordered dictionary with string keys. */
  type Table<V> = seq<(string, V)>

  /** The keys of a table, in insertion order. */
  function Keys<V>(t: Table<V>): (ks: seq<string>)
    ensures |ks| == |t|
    ensures forall i :: 0 <= i < |t| ==> ks[i] == t[i].0
  {
    seq(|t|, i requires 0 <= i < |t| => t[i].0)
  }

  lemma KeysAppend<V>(t: Table<V>, u: Table<V>)
    ensures Keys(t + u) == Keys(t) + Keys(u)
  {
  }

  /** `t.get(k)`: the value stored under `k`, or `None` when `k` is not a key. */
  function Lookup<V>(t: Table<V>, k: string): (r: Option<V>)
    ensures r.None? <==> k !in Keys(t)
    ensures r.Some? ==> (k, r.value) in t
  {
    LookupFrom(t, k, 0)
  }

  /** The first entry at or after index `i` whose key is `k`. */
  function LookupFrom<V>(t: Table<V>, k: string, i: nat): (r: Option<V>)
    requires i <= |t|
    ensures r.None? <==> forall j :: i <= j < |t| ==> t[j].0 != k
    ensures r.Some? ==> exists j :: i <= j < |t| && t[j] == (k, r.value)
    decreases |t| - i
  {
    if i == |t| then None
    else if t[i].0 == k then Some(t[i].1)
    else LookupFrom(t, k, i + 1)
  }

  /** The position of the entry stored under `name` at or after `i`. */
  function IndexFrom<V>(t: Table<V>, name: string, i: nat): (r: Option<nat>)
    requires i <= |t|
    ensures r.Some? ==> i <= r.value < |t| && t[r.value].0 == name && forall j :: i <= j < r.value ==> t[j].0 != name
    ensures r.None? ==> forall j :: i <= j < |t| ==> t[j].0 != name
    decreases |t| - i
  {
    if i == |t| then None
    else if t[i].0 == name then Some(i)
    else IndexFrom(t, name, i + 1)
  }

  /** The position of the entry stored under `name`, if any. */
  function IndexOf<V>(t: Table<V>, name: string): (r: Option<nat>)
    ensures r.Some? ==> r.value < |t| && t[r.value].0 == name && forall j :: 0 <= j < r.value ==> t[j].0 != name
    ensures r.None? <==> name !in Keys(t)
    ensures r.None? ==> forall j :: 0 <= j < |t| ==> t[j].0 != name
  {
    IndexFrom(t, name, 0)
  }

  /** `t[name] = v`: a present key keeps its position and gets the new value; a new key goes last. */
  function Assign<V>(t: Table<V>, name: string, v: V): Table<V> {
    match IndexOf(t, name)
    case Some(i) => t[i := (name, v)]
    case None => t + [(name, v)]
  }

  /** The assignments of `kvs` made one after the other. */
  function AssignAll<V>(t: Table<V>, kvs: Table<V>): Table<V>
    decreases |kvs|
  {
    if |kvs| == 0 then t
    else Assign(AssignAll(t, kvs[..|kvs| - 1]), kvs[|kvs| - 1].0, kvs[|kvs| - 1].1)
  }

  lemma AssignAllSnoc<V>(t: Table<V>, kvs: Table<V>, kv: (string, V))
    ensures AssignAll(t, kvs + [kv]) == Assign(AssignAll(t, kvs), kv.0, kv.1)
  {
    assert (kvs + [kv])[..|kvs|] == kvs;
  }

  /** No key is stored twice. */
  predicate DistinctKeys<V>(t: Table<V>) {
    forall i, j :: 0 <= i < j < |t| ==> t[i].0 != t[j].0
  }

  /** Two tables without a key in common, each without repeats, join into one without repeats. */
  lemma DistinctKeysAppend<V>(t: Table<V>, u: Table<V>)
    requires DistinctKeys(t) && DistinctKeys(u)
    requires forall i, j :: 0 <= i < |t| && 0 <= j < |u| ==> t[i].0 != u[j].0
    ensures DistinctKeys(t + u)
  {
    var w := t + u;
    forall i, j | 0 <= i < j < |w| ensures w[i].0 != w[j].0 {
      if j < |t| {
        assert w[i] == t[i] && w[j] == t[j];
      } else if i < |t| {
        assert w[i] == t[i] && w[j] == u[j - |t|];
      } else {
        assert w[i] == u[i - |t|] && w[j] == u[j - |t|];
      }
    }
  }

  /** Lookup finds the first entry with the key. */
  lemma {:induction false} LookupFromIndex<V>(t: Table<V>, k: string, i: nat)
    requires i <= |t|
    ensures LookupFrom(t, k, i) == (match IndexFrom(t, k, i) case Some(p) => Some(t[p].1) case None => None)
    decreases |t| - i
  {
    if i < |t| && t[i].0 != k {
      LookupFromIndex(t, k, i + 1);
    }
  }

  /**
   * After `t[name] = v`, reading `name` gives `v` and reading any other key gives what it gave
   * before.
   */
  lemma AssignLookup<V>(t: Table<V>, name: string, v: V, k: string)
    ensures Lookup(Assign(t, name, v), k) == if k == name then Some(v) else Lookup(t, k)
  {
    LookupFromIndex(t, k, 0);
    LookupFromIndex(Assign(t, name, v), k, 0);
    if k == name {
      AssignIndexSame(t, name, v);
    } else {
      AssignIndexOther(t, name, v, k);
    }
  }

  /** After `t[name] = v`, `name` sits where it sat before, or last when it is new, holding `v`. */
  lemma AssignIndexSame<V>(t: Table<V>, name: string, v: V)
    ensures IndexOf(Assign(t, name, v), name).Some?
    ensures Assign(t, name, v)[IndexOf(Assign(t, name, v), name).value] == (name, v)
  {
    var t' := Assign(t, name, v);
    match IndexOf(t, name)
    case Some(i) =>
      assert Keys(t')[i] == name;
      assert forall j :: 0 <= j < i ==> t'[j] == t[j];
      assert IndexOf(t', name) == Some(i);
    case None =>
      assert Keys(t')[|t|] == name;
      assert forall j :: 0 <= j < |t| ==> t'[j] == t[j];
      assert IndexOf(t', name) == Some(|t|);
  }

  /** `t[name] = v` moves no other key and leaves its entry alone. */
  lemma AssignIndexOther<V>(t: Table<V>, name: string, v: V, k: string)
    requires k != name
    ensures IndexOf(Assign(t, name, v), k) == IndexOf(t, k)
    ensures IndexOf(t, k).Some? ==> Assign(t, name, v)[IndexOf(t, k).value] == t[IndexOf(t, k).value]
  {
    var t' := Assign(t, name, v);
    assert forall j :: 0 <= j < |t| ==> t'[j].0 == t[j].0 && (t[j].0 == k ==> t'[j] == t[j]);
    assert |t'| == |t| || (|t'| == |t| + 1 && t'[|t|].0 != k);
    match IndexOf(t, k)
    case Some(i) =>
      assert Keys(t')[i] == k;
      assert IndexOf(t', k) == Some(i);
    case None =>
      assert forall j :: 0 <= j < |t'| ==> t'[j].0 != k;
      assert k !in Keys(t');
  }

  /** `t[name] = v` keeps the keys and their order, and adds `name` last when it is new. */
  lemma AssignKeys<V>(t: Table<V>, name: string, v: V)
    ensures Keys(Assign(t, name, v)) == if name in Keys(t) then Keys(t) else Keys(t) + [name]
  {
  }

  /** Assigning keys that are all new, each once, appends their entries in order. */
  lemma {:induction false} AssignAllFresh<V>(t: Table<V>, kvs: Table<V>)
    requires DistinctKeys(t + kvs)
    ensures AssignAll(t, kvs) == t + kvs
    decreases |kvs|
  {
    if |kvs| > 0 {
      var init, last := kvs[..|kvs| - 1], kvs[|kvs| - 1];
      assert t + kvs == (t + init) + [last];
      assert DistinctKeys(t + init) by {
        forall i, j | 0 <= i < j < |t + init| ensures (t + init)[i].0 != (t + init)[j].0 {
          assert (t + init)[i] == (t + kvs)[i] && (t + init)[j] == (t + kvs)[j];
        }
      }
      AssignAllFresh(t, init);
      assert last.0 !in Keys(t + init) by {
        forall j | 0 <= j < |t + init| ensures (t + init)[j].0 != last.0 {
          assert (t + init)[j] == (t + kvs)[j] && last == (t + kvs)[|t + kvs| - 1];
        }
      }
    }
  }

  const Fonts: Table<FontInfo> := [
    ("amiri_quran", FontInfo("amiri_quran", "Amiri Quran", "AmiriQuran.ttf",
      "https://github.com/aliftype/amiri/releases/download/1.003/Amiri-1.003.zip",
      Some("Amiri-1.003/AmiriQuran.ttf"), "SIL OFL 1.1", None)),
    ("scheherazade_new", FontInfo("scheherazade_new", "Scheherazade New", "ScheherazadeNew-Regular.ttf",
      "https://github.com/silnrsi/font-scheherazade/releases/download/v4.400/ScheherazadeNew-4.400.zip",
      Some("ScheherazadeNew-4.400/ScheherazadeNew-Regular.ttf"), "SIL OFL 1.1", None)),
    ("kfgqpc_uthmanic_hafs", FontInfo("kfgqpc_uthmanic_hafs", "KFGQPC HAFS Uthmanic Script", "UthmanicHafs_V22.ttf",
      "https://static-cdn.tarteel.ai/qul/fonts/UthmanicHafs_V22.ttf",
      None, "KFGQPC", None)),
    ("me_quran", FontInfo("me_quran", "me_quran", "me_quran_volt_newmet.ttf",
      "https://static-cdn.tarteel.ai/qul/fonts/me_quran_volt_newmet.ttf",
      None, "Free", None)),
    ("noto_sans_arabic", FontInfo("noto_sans_arabic", "Noto Sans Arabic", "NotoSansArabic-Regular.ttf",
      "https://raw.githubusercontent.com/notofonts/notofonts.github.io/main/fonts/NotoSansArabic/unhinted/ttf/NotoSansArabic-Regular.ttf",
      None, "SIL OFL 1.1", None))
  ]

  /** The fonts validated for each script; the first is the recommended default. */
  const ScriptFontPairs: Table<seq<string>> := [
    ("text_uthmani", ["amiri_quran", "scheherazade_new", "me_quran"]),
    ("text_uthmani_simple", ["amiri_quran", "scheherazade_new"]),
    ("qpc_uthmani_hafs", ["kfgqpc_uthmanic_hafs", "amiri_quran"]),
    ("text_imlaei", ["amiri_quran", "scheherazade_new"]),
    ("text_imlaei_simple", ["amiri_quran", "scheherazade_new"]),
    ("text_indopak", [])
  ]

  const ScriptRiwayah: Table<string> := [
    ("qpc_uthmani_hafs", "hafs"),
    ("text_qpc_hafs", "hafs"),
    ("text_qpc_nastaleeq_hafs", "hafs"),
    ("text_uthmani", "hafs"),
    ("text_uthmani_simple", "hafs"),
    ("text_uthmani_tajweed", "hafs"),
    ("text_imlaei", "hafs"),
    ("text_imlaei_simple", "hafs"),
    ("text_indopak", "hafs"),
    ("text_indopak_nastaleeq", "hafs"),
    ("text_qpc_nastaleeq", "hafs")
  ]

  const AbbrevFonts: Table<string> := [
    ("amiri_quran", "amiri"),
    ("scheherazade_new", "schz"),
    ("kfgqpc_uthmanic_hafs", "kfgqpc"),
    ("kfgqpc_uthmanic_warsh", "kfgqpc"),
    ("me_quran", "meq"),
    ("noto_sans_arabic", "noto")
  ]

  const AbbrevLayouts: Table<string> := [
    ("by_surah", "ayah"),
    ("inline", "inline"),
    ("bilingual_interleaved", "bilin"),
    ("bilingual_columns", "cols"),
    ("arabic_tafseer", "tafseer"),
    ("spread", "spread"),
    ("mushaf_fixed", "mushaf"),
    ("translation_only", "trans")
  ]

  /** A pairing warning; `WarningText` renders it as the source's message. */
  datatype Warning =
    | UnknownScript(script: string, knownScripts: seq<string>)
    | UnknownFont(font: string, knownFonts: seq<string>)
    | UnvalidatedPair(font: string, script: string, recommended: seq<string>)

  function WarningText(w: Warning): string {
    match w
    case UnknownScript(s, known) => "Script '" + s + "' is not in the registry. Known scripts: " + Join(", ", known)
    case UnknownFont(f, known) => "Font '" + f + "' is not in the registry. Known fonts: " + Join(", ", known)
    case UnvalidatedPair(f, s, rec) =>
      "Font '" + f + "' is not a validated match for script '" + s + "'. Recommended fonts: " + Join(", ", rec)
      + ". This may cause rendering artifacts (sukun dots, broken ligatures)."
  }

  /** The fonts paired with `script`, or none when the script is not registered (`SCRIPT_FONT_PAIRS.get(script, [])`). */
  function PairedFonts(script: string): seq<string> {
    Lookup(ScriptFontPairs, script).GetOr([])
  }

  /**
   * `validate_script_font_pair`: at most one warning. An unknown script is reported (and the
   * font is then not looked at), else an unknown font, else a font outside a non-empty
   * pairing list; a font in the list, or any registered font when the list is empty, passes.
   */
  function ValidateScriptFontPair(script: string, font: string): (ws: seq<Warning>)
    ensures |ws| <= 1
    ensures script !in Keys(ScriptFontPairs) ==> ws == [UnknownScript(script, Keys(ScriptFontPairs))]
    ensures script in Keys(ScriptFontPairs) && font !in Keys(Fonts) ==> ws == [UnknownFont(font, Keys(Fonts))]
    ensures script in Keys(ScriptFontPairs) && font in Keys(Fonts) ==>
      (ws == [] <==> PairedFonts(script) == [] || font in PairedFonts(script)) &&
      (ws != [] ==> ws == [UnvalidatedPair(font, script, PairedFonts(script))])
  {
    match Lookup(ScriptFontPairs, script)
    case None => [UnknownScript(script, Keys(ScriptFontPairs))]
    case Some(validFonts) =>
      if Lookup(Fonts, font).None? then [UnknownFont(font, Keys(Fonts))]
      else if |validFonts| > 0 && font !in validFonts then [UnvalidatedPair(font, script, validFonts)]
      else []
  }

  /** The recommended font of a script: the head of its pairing list, if any. */
  function DefaultFont(script: string): (r: Option<string>)
    ensures r.Some? ==> |PairedFonts(script)| > 0 && r.value == PairedFonts(script)[0]
    ensures r.None? ==> PairedFonts(script) == []
  {
    var fonts := PairedFonts(script);
    if |fonts| > 0 then Some(fonts[0]) else None
  }

  /** Every font named in any pairing list is a registered font. */
  lemma PairedFontsRegistered()
    ensures forall i, j :: 0 <= i < |ScriptFontPairs| && 0 <= j < |ScriptFontPairs[i].1| ==>
      ScriptFontPairs[i].1[j] in Keys(Fonts)
  {
    var fontKeys := Keys(Fonts);
    assert fontKeys == ["amiri_quran", "scheherazade_new", "kfgqpc_uthmanic_hafs", "me_quran", "noto_sans_arabic"];
  }

  /** The recommended font of a registered script always passes validation with no warning. */
  lemma DefaultFontValidates(script: string)
    requires DefaultFont(script).Some?
    ensures ValidateScriptFontPair(script, DefaultFont(script).value) == []
  {
    var f := DefaultFont(script).value;
    var valid := Lookup(ScriptFontPairs, script).value;
    var i :| 0 <= i < |ScriptFontPairs| && ScriptFontPairs[i] == (script, valid);
    PairedFontsRegistered();
    assert ScriptFontPairs[i].1[0] == f;
  }

  /** A script with an empty pairing list accepts every registered font silently. */
  lemma IndopakAcceptsRegisteredFonts(font: string)
    requires font in Keys(Fonts)
    ensures ValidateScriptFontPair("text_indopak", font) == []
  {
    assert Lookup(ScriptFontPairs, "text_indopak") == Some([]);
  }

  /** `get_riwayah`: the table's riwayah, "hafs" for a script not in it. */
  function Riwayah(script: string): (r: string)
    ensures Lookup(ScriptRiwayah, script).Some? ==> (script, r) in ScriptRiwayah
    ensures script !in Keys(ScriptRiwayah) ==> r == "hafs"
  {
    Lookup(ScriptRiwayah, script).GetOr("hafs")
  }

  /** Every riwayah in the table is Hafs, so every script's riwayah is "hafs". */
  lemma RiwayahAlwaysHafs(script: string)
    ensures Riwayah(script) == "hafs"
  {
    if Lookup(ScriptRiwayah, script).Some? {
      var r := Riwayah(script);
      var i :| 0 <= i < |ScriptRiwayah| && ScriptRiwayah[i] == (script, r);
    }
  }

  /** `abbreviate`: the short code from the category's table, else the key itself. */
  function Abbreviate(category: string, key: string): (r: string)
    ensures category == "font" && key in Keys(AbbrevFonts) ==> (key, r) in AbbrevFonts
    ensures category == "layout" && key in Keys(AbbrevLayouts) ==> (key, r) in AbbrevLayouts
    ensures category != "font" && category != "layout" ==> r == key
    ensures category == "font" && key !in Keys(AbbrevFonts) ==> r == key
    ensures category == "layout" && key !in Keys(AbbrevLayouts) ==> r == key
  {
    var table := if category == "font" then AbbrevFonts else if category == "layout" then AbbrevLayouts else [];
    Lookup(table, key).GetOr(key)
  }

  /** The short codes the default configuration and a translated build use. */
  lemma AbbreviationsUsed()
    ensures Abbreviate("font", "kfgqpc_uthmanic_hafs") == "kfgqpc"
    ensures Abbreviate("layout", "by_surah") == "ayah"
    ensures Abbreviate("layout", "bilingual_interleaved") == "bilin"
  {
    assert Lookup(AbbrevFonts, "kfgqpc_uthmanic_hafs") == Some("kfgqpc");
    assert Lookup(AbbrevLayouts, "by_surah") == Some("ayah");
    assert Lookup(AbbrevLayouts, "bilingual_interleaved") == Some("bilin");
  }
}
