/**
 * The per-creature fields that `get_pokemon` derives from the two PokeAPI
 * responses: the display name, the Bulbapedia link, the sprite fallback, the
 * type selections, and the English flavour text, category and generation.
 * The HTTP requests are not modelled: each response is an input record.
 */
module PokemonFields {
  import opened Wrappers
  import opened Text

  // ------------------------------------------------------------------ name

  function CapitalizeAll(words: seq<string>): (r: seq<string>)
    ensures |r| == |words| && forall i :: 0 <= i < |r| ==> r[i] == Capitalize(words[i])
  {
    seq(|words|, i requires 0 <= i < |words| => Capitalize(words[i]))
  }

  /** `' '.join([n.capitalize() for n in name.split('-')])`. */
  function CapitalizedWords(speciesName: string): string
  {
    Join(CapitalizeAll(Split(speciesName, '-')), ' ')
  }

  /** No `-` is left once the name has been split on it and re-joined with spaces. */
  lemma CapitalizedWordsHaveNoHyphen(speciesName: string)
    ensures '-' !in CapitalizedWords(speciesName)
  {
    var parts := Split(speciesName, '-');
    var words := CapitalizeAll(parts);
    forall i | 0 <= i < |words| ensures '-' !in words[i] {
      CapitalizeExcludes(parts[i], '-');
    }
    JoinExcludes(words, ' ', '-');
  }

  /**
   * For a species name without spaces, the space-separated words of the
   * result are its `-`-separated pieces, capitalised: each starts with an
   * upper-case letter (or a non-letter) and has no upper-case letter after.
   */
  lemma CapitalizedWordsAreCapitalized(speciesName: string)
    requires ' ' !in speciesName
    ensures Split(CapitalizedWords(speciesName), ' ') == CapitalizeAll(Split(speciesName, '-'))
    ensures forall w :: w in Split(CapitalizedWords(speciesName), ' ') ==> IsCapitalized(w)
  {
    var parts := Split(speciesName, '-');
    var words := CapitalizeAll(parts);
    JoinSplit(speciesName, '-');
    forall i | 0 <= i < |parts| ensures ' ' !in parts[i] {
      JoinParts(parts, '-', i, ' ');
    }
    forall i | 0 <= i < |words| ensures ' ' !in words[i] {
      CapitalizeExcludes(parts[i], ' ');
    }
    SplitJoin(words, ' ');
  }

  /** A character absent from a join is absent from each joined piece. */
  lemma {:induction false} JoinParts(parts: seq<string>, sep: char, i: nat, c: char)
    requires |parts| >= 1 && i < |parts|
    requires c !in Join(parts, sep)
    ensures c !in parts[i]
  {
    if |parts| > 1 {
      var j := Join(parts, sep);
      assert j == parts[0] + ([sep] + Join(parts[1..], sep));
      if i == 0 {
        forall k | 0 <= k < |parts[0]| ensures parts[0][k] != c { assert j[k] == parts[0][k]; }
      } else {
        var rest := Join(parts[1..], sep);
        forall k | 0 <= k < |rest| ensures rest[k] != c { assert j[|parts[0]| + 1 + k] == rest[k]; }
        JoinParts(parts[1..], sep, i - 1, c);
      }
    }
  }

  /** The fixed replacement chain, applied in this order, each to every occurrence. */
  const Replacements: seq<(string, string)> := [
    ("Mr M", "Mr. M"),
    ("Mime Jr", "Mime Jr."),
    ("Mr R", "Mr. R"),
    ("mo O", "mo-o"),
    ("Porygon Z", "Porygon-Z"),
    ("Type Null", "Type: Null"),
    ("Ho Oh", "Ho-Oh"),
    ("Nidoran F", "Nidoran\U{2640}"),
    ("Nidoran M", "Nidoran\U{2642}"),
    ("Flabebe", "Flab\U{00E9}b\U{00E9}")
  ]

  lemma ReplacementPatternsNonEmpty()
    ensures forall i :: 0 <= i < |Replacements| ==> |Replacements[i].0| > 0
  {
    var rs := Replacements;
    assert |rs| == 10;
    assert |rs[0].0| > 0 && |rs[1].0| > 0 && |rs[2].0| > 0 && |rs[3].0| > 0 && |rs[4].0| > 0;
    assert |rs[5].0| > 0 && |rs[6].0| > 0 && |rs[7].0| > 0 && |rs[8].0| > 0 && |rs[9].0| > 0;
  }

  function ApplyReplacements(s: string, rs: seq<(string, string)>): string
    requires forall i :: 0 <= i < |rs| ==> |rs[i].0| > 0
    decreases |rs|
  {
    if rs == [] then s else ApplyReplacements(ReplaceAll(s, rs[0].0, rs[0].1), rs[1..])
  }

  /** A string in which none of the patterns occurs passes through the chain unchanged. */
  lemma {:induction false} ApplyReplacementsAbsent(s: string, rs: seq<(string, string)>)
    requires forall i :: 0 <= i < |rs| ==> |rs[i].0| > 0 && !Contains(s, rs[i].0)
    ensures ApplyReplacements(s, rs) == s
  {
    if rs != [] {
      ReplaceAbsent(s, rs[0].0, rs[0].1);
      ApplyReplacementsAbsent(s, rs[1..]);
    }
  }

  /** The display name: split on `-`, capitalise, join with spaces, then the replacement chain. */
  function ProcessedName(speciesName: string): string
  {
    ReplacementPatternsNonEmpty();
    ApplyReplacements(CapitalizedWords(speciesName), Replacements)
  }

  /** Pair `j` of the chain is applied, then the pairs after it. */
  lemma ChainFire(s: string, rs: seq<(string, string)>, j: nat)
    requires j < |rs| && forall i :: 0 <= i < |rs| ==> |rs[i].0| > 0
    ensures ApplyReplacements(s, rs[j..]) == ApplyReplacements(ReplaceAll(s, rs[j].0, rs[j].1), rs[j + 1..])
  {
    assert rs[j..][1..] == rs[j + 1..];
  }

  /** Pairs `lo` to `hi` whose patterns do not occur leave the string as it is. */
  lemma {:induction false} ChainSkipRange(s: string, rs: seq<(string, string)>, lo: nat, hi: nat)
    requires lo <= hi <= |rs| && forall i :: 0 <= i < |rs| ==> |rs[i].0| > 0
    requires forall j :: lo <= j < hi ==> !Contains(s, rs[j].0)
    ensures ApplyReplacements(s, rs[lo..]) == ApplyReplacements(s, rs[hi..])
    decreases hi - lo
  {
    if lo < hi {
      ChainFire(s, rs, lo);
      ReplaceAbsent(s, rs[lo].0, rs[lo].1);
      ChainSkipRange(s, rs, lo + 1, hi);
    }
  }

  /** The pattern at the front of `pat + b`, preceded by a prefix that cannot start it, is replaced once. */
  lemma ReplaceOnce(a: string, pat: string, b: string, rep: string)
    requires |pat| > 0 && pat[0] !in a && !Contains(b, pat)
    ensures ReplaceAll(a + pat + b, pat, rep) == a + rep + b
  {
    ReplaceSkip(a, pat + b, pat, rep);
    ReplaceHere(pat, b, rep);
    ReplaceAbsent(b, pat, rep);
    assert a + pat + b == a + (pat + b);
  }

  lemma SplitTwo(a: string, b: string)
    requires '-' !in a && '-' !in b
    ensures Split(a + "-" + b, '-') == [a, b]
  {
    SplitPrefix(a, '-', b);
    SplitNoSeparator(b, '-');
  }

  /** Two `-`-separated pieces become two capitalised words separated by a space. */
  lemma TwoWords(a: string, b: string)
    requires '-' !in a && '-' !in b
    ensures CapitalizedWords(a + "-" + b) == Capitalize(a) + " " + Capitalize(b)
  {
    SplitTwo(a, b);
    assert CapitalizeAll([a, b]) == [Capitalize(a), Capitalize(b)];
    assert Join([Capitalize(b)], ' ') == Capitalize(b);
  }

  /**
   * When only pair `j` of the chain occurs in `s`, once, and its replacement
   * lets none of the later patterns occur, the chain replaces exactly that one
   * occurrence.
   */
  lemma ChainOneFires(rs: seq<(string, string)>, j: nat, a: string, b: string)
    requires j < |rs| && forall i :: 0 <= i < |rs| ==> |rs[i].0| > 0
    requires forall i :: 0 <= i < j ==> !Contains(a + rs[j].0 + b, rs[i].0)
    requires rs[j].0[0] !in a && !Contains(b, rs[j].0)
    requires forall i :: j < i < |rs| ==> !Contains(a + rs[j].1 + b, rs[i].0)
    ensures ApplyReplacements(a + rs[j].0 + b, rs) == a + rs[j].1 + b
  {
    var s, t := a + rs[j].0 + b, a + rs[j].1 + b;
    assert rs[0..] == rs;
    ChainSkipRange(s, rs, 0, j);
    ChainFire(s, rs, j);
    ReplaceOnce(a, rs[j].0, b, rs[j].1);
    ChainSkipRange(t, rs, j + 1, |rs|);
    assert rs[|rs|..] == [];
  }

  lemma MrMimeWords()
    ensures CapitalizedWords("mr-mime") == "Mr Mime"
  {
    assert "mr-mime" == "mr" + "-" + "mime";
    TwoWords("mr", "mime");
    assert Capitalize("mr") == "Mr" && Capitalize("mime") == "Mime";
    assert "Mr" + " " + "Mime" == "Mr Mime";
  }

  lemma MrMimeChain(s: string, t: string)
    requires s == "Mr Mime" && t == "Mr. Mime"
    ensures ApplyReplacements(s, Replacements) == t
  {
    ReplacementPatternsNonEmpty();
    var rs := Replacements;
    assert rs[0] == ("Mr M", "Mr. M");
    CharExcludesPattern("ime", "Mr M", 0);
    assert t == "" + "Mr. M" + "ime";
    CharExcludesPattern(t, rs[1].0, 5);
    CharExcludesPattern(t, rs[2].0, 3);
    CharExcludesPattern(t, rs[3].0, 3);
    forall i | 4 <= i < 10 ensures !Contains(t, rs[i].0) {
      CharExcludesPattern(t, rs[i].0, 0);
    }
    assert s == "" + "Mr M" + "ime";
    ChainOneFires(rs, 0, "", "ime");
  }

  /** `mr-mime` is displayed as `Mr. Mime`: the first pair of the chain fires. */
  lemma ProcessedMrMime(speciesName: string)
    requires speciesName == "mr-mime"
    ensures ProcessedName(speciesName) == "Mr. Mime"
  {
    MrMimeWords();
    MrMimeChain("Mr Mime", "Mr. Mime");
    ReplacementPatternsNonEmpty();
    ProcessedNameOf(speciesName, "Mr Mime", "Mr. Mime");
  }

  lemma JangmoOChain(s: string, t: string)
    requires s == "Jangmo O" && t == "Jangmo-o"
    ensures ApplyReplacements(s, Replacements) == t
  {
    ReplacementPatternsNonEmpty();
    var rs := Replacements;
    assert rs[3] == ("mo O", "mo-o");
    forall i | 0 <= i < 3 ensures !Contains(s, rs[i].0) {
      CharExcludesPattern(s, rs[i].0, 0);
    }
    CharExcludesPattern("", "mo O", 0);
    forall i | 4 <= i < 10 ensures !Contains(t, rs[i].0) {
      CharExcludesPattern(t, rs[i].0, 0);
    }
    assert s == "Jang" + "mo O" + "" && t == "Jang" + "mo-o" + "";
    ChainOneFires(rs, 3, "Jang", "");
  }

  lemma HoOhChain(s: string, t: string)
    requires s == "Ho Oh" && t == "Ho-Oh"
    ensures ApplyReplacements(s, Replacements) == t
  {
    ReplacementPatternsNonEmpty();
    var rs := Replacements;
    assert rs[6] == ("Ho Oh", "Ho-Oh");
    forall i | 0 <= i < 6 ensures !Contains(s, rs[i].0) {
      CharExcludesPattern(s, rs[i].0, 0);
    }
    CharExcludesPattern("", "Ho Oh", 0);
    forall i | 7 <= i < 10 ensures !Contains(t, rs[i].0) {
      CharExcludesPattern(t, rs[i].0, 0);
    }
    assert s == "" + "Ho Oh" + "" && t == "" + "Ho-Oh" + "";
    ChainOneFires(rs, 6, "", "");
  }

  lemma NidoranFChain(s: string, t: string)
    requires s == "Nidoran F" && t == "Nidoran\U{2640}"
    ensures ApplyReplacements(s, Replacements) == t
  {
    ReplacementPatternsNonEmpty();
    var rs := Replacements;
    assert rs[7] == ("Nidoran F", "Nidoran\U{2640}");
    forall i | 0 <= i < 7 ensures !Contains(s, rs[i].0) {
      CharExcludesPattern(s, rs[i].0, 0);
    }
    CharExcludesPattern("", "Nidoran F", 0);
    CharExcludesPattern(t, rs[8].0, 8);
    CharExcludesPattern(t, rs[9].0, 0);
    assert s == "" + "Nidoran F" + "" && t == "" + "Nidoran\U{2640}" + "";
    ChainOneFires(rs, 7, "", "");
  }

  /**
   * A two-word hyphenated name splits and capitalises into its two words.
   * It takes the words as parameters: stating this with the name literals
   * inside the examples runs out of resource, so the four examples share it.
   */
  lemma HyphenatedWords(speciesName: string, a: string, b: string, words: string)
    requires '-' !in a && '-' !in b && speciesName == a + "-" + b
    requires words == Capitalize(a) + " " + Capitalize(b)
    ensures CapitalizedWords(speciesName) == words
  {
    TwoWords(a, b);
  }

  /** `jangmo-o` keeps the lower-case `o` after the hyphen the chain puts back. */
  lemma ProcessedJangmoO(speciesName: string)
    requires speciesName == "jangmo-o"
    ensures ProcessedName(speciesName) == "Jangmo-o"
  {
    ReplacementPatternsNonEmpty();
    assert Capitalize("jangmo") == "Jangmo" && Capitalize("o") == "O";
    HyphenatedWords(speciesName, "jangmo", "o", "Jangmo O");
    JangmoOChain("Jangmo O", "Jangmo-o");
    ProcessedNameOf(speciesName, "Jangmo O", "Jangmo-o");
  }

  /** `ho-oh` gets its hyphen back with both words capitalised. */
  lemma ProcessedHoOh(speciesName: string)
    requires speciesName == "ho-oh"
    ensures ProcessedName(speciesName) == "Ho-Oh"
  {
    ReplacementPatternsNonEmpty();
    assert Capitalize("ho") == "Ho" && Capitalize("oh") == "Oh";
    HyphenatedWords(speciesName, "ho", "oh", "Ho Oh");
    HoOhChain("Ho Oh", "Ho-Oh");
    ProcessedNameOf(speciesName, "Ho Oh", "Ho-Oh");
  }

  /** `nidoran-f` gets the female sign. */
  lemma ProcessedNidoranF(speciesName: string)
    requires speciesName == "nidoran-f"
    ensures ProcessedName(speciesName) == "Nidoran\U{2640}"
  {
    ReplacementPatternsNonEmpty();
    assert Capitalize("nidoran") == "Nidoran" && Capitalize("f") == "F";
    HyphenatedWords(speciesName, "nidoran", "f", "Nidoran F");
    NidoranFChain("Nidoran F", "Nidoran\U{2640}");
    ProcessedNameOf(speciesName, "Nidoran F", "Nidoran\U{2640}");
  }

  /**
   * The bridge from the two stages to `ProcessedName`, taking the stages'
   * results as parameters: unfolding `ProcessedName` next to the name
   * literals in the examples runs out of resource, so the four examples share it.
   */
  lemma ProcessedNameOf(speciesName: string, words: string, r: string)
    requires forall i :: 0 <= i < |Replacements| ==> |Replacements[i].0| > 0
    requires CapitalizedWords(speciesName) == words && ApplyReplacements(words, Replacements) == r
    ensures ProcessedName(speciesName) == r
  {
  }

  // ------------------------------------------------------------ Bulbapedia

  const BulbapediaPrefix := "https://bulbapedia.bulbagarden.net/wiki/"
  const BulbapediaSuffix := "_(Pok\U{00E9}mon)"

  /** The wiki link: the fixed prefix, the name with spaces as `_`, and `_(Pokémon)`. */
  function BulbapediaUrl(name: string): string
  {
    BulbapediaPrefix + ReplaceAll(name, " ", "_") + BulbapediaSuffix
  }

  /**
   * The link holds the name character for character, each space turned into
   * `_`, between the prefix and the suffix; so it contains no space.
   */
  lemma BulbapediaUrlShape(name: string)
    ensures var url := BulbapediaUrl(name);
            && |url| == |BulbapediaPrefix| + |name| + |BulbapediaSuffix|
            && url[..|BulbapediaPrefix|] == BulbapediaPrefix
            && url[|url| - |BulbapediaSuffix|..] == BulbapediaSuffix
            && (forall i :: 0 <= i < |name| ==>
                  url[|BulbapediaPrefix| + i] == if name[i] == ' ' then '_' else name[i])
            && ' ' !in url
  {
    ReplaceCharAt(name, ' ', '_');
    ReplaceCharRemoves(name, ' ', '_');
    var url := BulbapediaUrl(name);
    var mid := ReplaceAll(name, " ", "_");
    assert url[..|BulbapediaPrefix|] == BulbapediaPrefix;
    assert url[|url| - |BulbapediaSuffix|..] == BulbapediaSuffix;
    forall i | 0 <= i < |url| ensures url[i] != ' ' {
      if |BulbapediaPrefix| <= i < |BulbapediaPrefix| + |mid| {
        assert url[i] == mid[i - |BulbapediaPrefix|];
      }
    }
  }

  // ---------------------------------------------------------------- sprite

  /**
   * `front_default or official-artwork.front_default`: the front sprite when
   * it is present and not empty, otherwise the official artwork.
   */
  function Sprite(frontDefault: Option<string>, officialArtwork: Option<string>): (r: Option<string>)
    ensures Truthy(frontDefault) ==> r == frontDefault
    ensures !Truthy(frontDefault) ==> r == officialArtwork
  {
    if frontDefault.Some? && frontDefault.value != "" then frontDefault else officialArtwork
  }

  // ----------------------------------------------------------------- types

  /** One option of a multi-select property: `{"name": ...}`. */
  datatype SelectOption = SelectOption(name: string)

  /** `[{"name": t['type']['name']} for t in poke['types']]`, in the response's order. */
  function TypesArray(typeNames: seq<string>): (r: seq<SelectOption>)
    ensures |r| == |typeNames|
    ensures forall i :: 0 <= i < |r| ==> r[i].name == typeNames[i]
  {
    seq(|typeNames|, i requires 0 <= i < |typeNames| => SelectOption(typeNames[i]))
  }

  // ------------------------------------------------------- species details

  /** A text of the species endpoint in one language (`flavor_text` or `genus`). */
  datatype Localized = Localized(text: string, language: string)

  /** The position of the first English entry, if there is one. */
  function FirstEnglishIndex(entries: seq<Localized>): (r: Option<nat>)
    ensures r.Some? ==> r.value < |entries| && entries[r.value].language == "en"
    ensures r.Some? ==> forall j :: 0 <= j < r.value ==> entries[j].language != "en"
    ensures r.None? ==> forall j :: 0 <= j < |entries| ==> entries[j].language != "en"
  {
    if entries == [] then None
    else if entries[0].language == "en" then Some(0)
    else
      match FirstEnglishIndex(entries[1..])
      case None => None
      case Some(k) => Some(k + 1)
  }

  /** `next((e.text for e in entries if e.language.name == 'en'), "")`. */
  function FirstEnglish(entries: seq<Localized>): string
  {
    match FirstEnglishIndex(entries)
    case None => ""
    case Some(k) => entries[k].text
  }

  /** The control characters that the flavour text has in place of spaces. */
  const FormFeed := '\U{000C}'

  /** `.replace('\n', ' ').replace('\f', ' ').replace('\r', ' ')`. */
  function CleanFlavorText(text: string): string
  {
    ReplaceAll(ReplaceAll(ReplaceAll(text, "\n", " "), [FormFeed], " "), "\r", " ")
  }

  /** The first English flavour text with its line and page breaks turned into spaces. */
  function FlavorText(entries: seq<Localized>): string
  {
    CleanFlavorText(FirstEnglish(entries))
  }

  /**
   * The flavour text is the first English entry with every `\n`, `\f` and
   * `\r` replaced by a space and everything else kept; it is empty when no
   * entry is English.
   */
  lemma FlavorTextIsCleanedFirstEnglish(entries: seq<Localized>)
    ensures var r, t := FlavorText(entries), FirstEnglish(entries);
            && |r| == |t|
            && (forall i :: 0 <= i < |r| ==>
                  r[i] == if t[i] in {'\n', FormFeed, '\r'} then ' ' else t[i])
            && '\n' !in r && FormFeed !in r && '\r' !in r
    ensures (forall j :: 0 <= j < |entries| ==> entries[j].language != "en") ==> FlavorText(entries) == ""
  {
    var t := FirstEnglish(entries);
    var a := ReplaceAll(t, "\n", " ");
    var b := ReplaceAll(a, [FormFeed], " ");
    ReplaceCharAt(t, '\n', ' ');
    ReplaceCharAt(a, FormFeed, ' ');
    ReplaceCharAt(b, '\r', ' ');
    ReplaceCharRemoves(b, '\r', ' ');
    var r := FlavorText(entries);
    forall i | 0 <= i < |r| ensures r[i] != '\n' && r[i] != FormFeed { }
    if forall j :: 0 <= j < |entries| ==> entries[j].language != "en" {
      assert FirstEnglishIndex(entries).None?;
    }
  }

  /** The category: the first English genus, or `""`. */
  function Category(genera: seq<Localized>): string
  {
    FirstEnglish(genera)
  }

  /**
   * The first English text is the text of the first entry in English, and
   * `""` when there is none.
   */
  lemma FirstEnglishSelects(entries: seq<Localized>, k: nat)
    requires k < |entries| && entries[k].language == "en"
    requires forall j :: 0 <= j < k ==> entries[j].language != "en"
    ensures FirstEnglish(entries) == entries[k].text
  {
    var r := FirstEnglishIndex(entries);
    assert r.Some?;
    assert !(r.value < k) && !(k < r.value);
  }

  /** The category is `""` when no genus is in English. */
  lemma FirstEnglishAbsent(entries: seq<Localized>)
    ensures (forall j :: 0 <= j < |entries| ==> entries[j].language != "en") ==> Category(entries) == ""
  {
    if forall j :: 0 <= j < |entries| ==> entries[j].language != "en" {
      assert FirstEnglishIndex(entries).None?;
    }
  }

  /** `name.split('-')[-1]`: the piece after the last `-`. */
  function LastSegment(name: string): string
  {
    Last(Split(name, '-'))
  }

  /** `name.split('-')[-1].upper()`, e.g. `generation-iv` gives `IV`. */
  function Generation(generationName: string): string
  {
    Upper(LastSegment(generationName))
  }

  /**
   * The generation is the upper-cased tail of the name after its last `-`
   * (the whole name when it has none): no `-` and no lower-case letter in it.
   */
  lemma {:induction false} GenerationIsLastSegment(generationName: string)
    ensures var seg := LastSegment(generationName);
            && '-' !in seg
            && |seg| <= |generationName|
            && generationName[|generationName| - |seg|..] == seg
            && (|seg| == |generationName| || generationName[|generationName| - |seg| - 1] == '-')
    ensures var g := Generation(generationName);
            && |g| == |LastSegment(generationName)|
            && '-' !in g
            && (forall i :: 0 <= i < |g| ==> !IsLower(g[i]))
            && Lower(g) == Lower(LastSegment(generationName))
  {
    var parts := Split(generationName, '-');
    var seg := Last(parts);
    JoinSplit(generationName, '-');
    if |parts| >= 2 {
      JoinLast(parts, '-');
      var init := Join(parts[..|parts| - 1], '-');
      assert generationName == init + ['-'] + seg;
      assert generationName[|generationName| - |seg|..] == seg;
    } else {
      assert generationName == seg;
    }
    var g := Generation(generationName);
    forall i | 0 <= i < |g| ensures g[i] != '-' {
      assert seg[i] != '-';
    }
  }

  /** The generation of `generation-iv` is `IV`. */
  lemma GenerationIV(generationName: string)
    requires generationName == "generation-iv"
    ensures Generation(generationName) == "IV"
  {
    assert generationName == "generation" + ['-'] + "iv";
    SplitPrefix("generation", '-', "iv");
    SplitNoSeparator("iv", '-');
    assert LastSegment(generationName) == "iv";
  }
}
