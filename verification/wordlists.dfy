/**
 * The wordlist registry: a fixed table from short language codes to the
 * built-in wordlists, with English as the fallback for a missing or unknown
 * code. The 2048 words of each list are static data and are not modelled;
 * a wordlist is an abstract handle carrying its index width in bits.
 */
module Wordlists {
  import opened Wrappers

  /** A handle on a wordlist: which list it is and how many bits index it. */
  datatype Wordlist = Wordlist(language: string, bits: nat)

  /** The built-in lists; each holds 2048 words, so each is indexed by 11 bits. */
  const English: Wordlist := Wordlist("english", 11)
  const Spanish: Wordlist := Wordlist("spanish", 11)
  const French: Wordlist := Wordlist("french", 11)
  const Italian: Wordlist := Wordlist("italian", 11)
  const Japanese: Wordlist := Wordlist("japanese", 11)
  const ChineseSimplified: Wordlist := Wordlist("chinese_simplified", 11)
  const ChineseTraditional: Wordlist := Wordlist("chinese_traditional", 11)

  /** One row of the language table. */
  datatype Entry = Entry(name: string, words: Wordlist)

  /** The language table, in the order it is searched. */
  const Lookup: seq<Entry> := [
    Entry("en", English), Entry("es", Spanish), Entry("fr", French),
    Entry("it", Italian), Entry("jp", Japanese), Entry("zhs", ChineseSimplified),
    Entry("zht", ChineseTraditional)
  ]

  /** A caller that passes no wordlist gets English. */
  function Resolve(w: Option<Wordlist>): (r: Wordlist)
    ensures w.Some? ==> r == w.value
    ensures w.None? ==> r == English
  {
    w.GetOr(English)
  }

  /** The language codes of `Lookup`, in table order. */
  function LookupNames(): (names: seq<string>)
    ensures |names| == |Lookup|
    ensures forall i :: 0 <= i < |Lookup| ==> names[i] == Lookup[i].name
  {
    seq(|Lookup|, i requires 0 <= i < |Lookup| => Lookup[i].name)
  }

  /** The words of `names`, separated by single spaces. */
  function JoinWithSpaces(names: seq<string>): string {
    if |names| == 0 then ""
    else if |names| == 1 then names[0]
    else names[0] + " " + JoinWithSpaces(names[1..])
  }

  /**
   * The supported language codes as one space-separated string: the names
   * of `Lookup`, in table order.
   */
  function GetLanguages(): (s: string)
    ensures s == JoinWithSpaces(LookupNames())
  {
    LookupNamesInOrder();
    LanguagesJoined();
    "en es fr it jp zhs zht"
  }

  lemma LookupNamesInOrder()
    ensures LookupNames() == ["en", "es", "fr", "it", "jp", "zhs", "zht"]
  {
  }

  lemma LanguagesJoined()
    ensures "en es fr it jp zhs zht" == JoinWithSpaces(["en", "es", "fr", "it", "jp", "zhs", "zht"])
  {
    LanguagesJoinedTail();
    assert JoinWithSpaces(["en", "es", "fr", "it", "jp", "zhs", "zht"])
      == "en" + " " + ("es" + " " + "fr it jp zhs zht");
  }

  lemma LanguagesJoinedTail()
    ensures JoinWithSpaces(["fr", "it", "jp", "zhs", "zht"]) == "fr it jp zhs zht"
  {
    assert JoinWithSpaces(["jp", "zhs", "zht"]) == "jp zhs zht";
    assert JoinWithSpaces(["fr", "it", "jp", "zhs", "zht"])
      == "fr" + " " + ("it" + " " + "jp zhs zht");
  }

  /** No two rows of `Lookup` share a code, so a code selects at most one row. */
  lemma LookupNamesDistinct()
    ensures forall i, j :: 0 <= i < j < |Lookup| ==> Lookup[i].name != Lookup[j].name
  {
  }

  /**
   * Resolves a language code to a wordlist by a linear search of `Lookup`
   * with exact (case-sensitive) comparison; a missing code or one that is
   * not in the table yields English.
   */
  method GetWordlist(lang: Option<string>) returns (w: Wordlist)
    ensures lang.None? ==> w == English
    ensures lang.Some? ==> forall i :: 0 <= i < |Lookup| && Lookup[i].name == lang.value ==>
      w == Lookup[i].words
    ensures lang.Some? && (forall i :: 0 <= i < |Lookup| ==> Lookup[i].name != lang.value) ==>
      w == English
  {
    LookupNamesDistinct();
    if lang.Some? {
      var i := 0;
      while i < |Lookup|
        invariant 0 <= i <= |Lookup|
        invariant forall j :: 0 <= j < i ==> Lookup[j].name != lang.value
      {
        if Lookup[i].name == lang.value {
          return Lookup[i].words;
        }
        i := i + 1;
      }
    }
    return English;
  }
}
