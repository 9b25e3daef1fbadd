/**
 * The closed set of languages a catalog may contain: a raw-value enum whose
 * raw values are BCP 47 language tags (RFC 5646, section 2.1). Only the
 * raw-value lookup is modelled; localised display names are not.
 */
module Languages {
  import opened Wrappers

  datatype Language =
    | Arabic
    | Catalan
    | ChineseHongKong
    | Chinese
    | ChineseTraditional
    | Croatian
    | Czech
    | Danish
    | Dutch
    | English
    | EnglishAustralia
    | EnglishIndia
    | EnglishGB
    | Finnish
    | French
    | FrenchCanada
    | German
    | Greek
    | Hebrew
    | Hindi
    | Hungarian
    | Indonesian
    | Italian
    | Japanese
    | Korean
    | Malay
    | NorwegianBokmal
    | Polish
    | PortugueseBrazil
    | Portugese
    | Romanian
    | Russian
    | Slovak
    | Spanish
    | SpanishLatinAmerica
    | Swedish
    | Thai
    | Turkish
    | Ukrainian
    | Vietnamese

  /** The raw value, which is also what `code` returns. */
  function Code(l: Language): string
  {
    match l
    case Arabic => "ar"
    case Catalan => "ca"
    case ChineseHongKong => "zh-HK"
    case Chinese => "zh-Hans"
    case ChineseTraditional => "zh-Hant"
    case Croatian => "hr"
    case Czech => "cs"
    case Danish => "da"
    case Dutch => "nl"
    case English => "en"
    case EnglishAustralia => "en-AU"
    case EnglishIndia => "en-IN"
    case EnglishGB => "en-GB"
    case Finnish => "fi"
    case French => "fr"
    case FrenchCanada => "fr-CA"
    case German => "de"
    case Greek => "el"
    case Hebrew => "he"
    case Hindi => "hi"
    case Hungarian => "hu"
    case Indonesian => "id"
    case Italian => "it"
    case Japanese => "ja"
    case Korean => "ko"
    case Malay => "ms"
    case NorwegianBokmal => "nb"
    case Polish => "pl"
    case PortugueseBrazil => "pt-BR"
    case Portugese => "pt-PT"
    case Romanian => "ro"
    case Russian => "ru"
    case Slovak => "sk"
    case Spanish => "es"
    case SpanishLatinAmerica => "es-419"
    case Swedish => "sv"
    case Thai => "th"
    case Turkish => "tr"
    case Ukrainian => "uk"
    case Vietnamese => "vi"
  }

  /** Every case, in declaration order. */
  const AllLanguages: seq<Language> := [
    Arabic, Catalan, ChineseHongKong, Chinese, ChineseTraditional,
    Croatian, Czech, Danish, Dutch, English,
    EnglishAustralia, EnglishIndia, EnglishGB, Finnish, French,
    FrenchCanada, German, Greek, Hebrew, Hindi,
    Hungarian, Indonesian, Italian, Japanese, Korean,
    Malay, NorwegianBokmal, Polish, PortugueseBrazil, Portugese,
    Romanian, Russian, Slovak, Spanish, SpanishLatinAmerica,
    Swedish, Thai, Turkish, Ukrainian, Vietnamese
  ]

  /**
   * The only case whose code can equal `code`: the forty codes already differ
   * in their length, first two and last characters, so comparing those picks
   * the candidate without comparing whole strings.
   */
  function Candidate(code: string): Option<Language>
  {
    if |code| < 2 then None
    else
      var a, b, z, n := code[0], code[1], code[|code| - 1], |code|;
      if n == 2 && a == 'a' && b == 'r' && z == 'r' then Some(Arabic)
      else if n == 2 && a == 'c' && b == 'a' && z == 'a' then Some(Catalan)
      else if n == 5 && a == 'z' && b == 'h' && z == 'K' then Some(ChineseHongKong)
      else if n == 7 && a == 'z' && b == 'h' && z == 's' then Some(Chinese)
      else if n == 7 && a == 'z' && b == 'h' && z == 't' then Some(ChineseTraditional)
      else if n == 2 && a == 'h' && b == 'r' && z == 'r' then Some(Croatian)
      else if n == 2 && a == 'c' && b == 's' && z == 's' then Some(Czech)
      else if n == 2 && a == 'd' && b == 'a' && z == 'a' then Some(Danish)
      else if n == 2 && a == 'n' && b == 'l' && z == 'l' then Some(Dutch)
      else if n == 2 && a == 'e' && b == 'n' && z == 'n' then Some(English)
      else if n == 5 && a == 'e' && b == 'n' && z == 'U' then Some(EnglishAustralia)
      else if n == 5 && a == 'e' && b == 'n' && z == 'N' then Some(EnglishIndia)
      else if n == 5 && a == 'e' && b == 'n' && z == 'B' then Some(EnglishGB)
      else if n == 2 && a == 'f' && b == 'i' && z == 'i' then Some(Finnish)
      else if n == 2 && a == 'f' && b == 'r' && z == 'r' then Some(French)
      else if n == 5 && a == 'f' && b == 'r' && z == 'A' then Some(FrenchCanada)
      else if n == 2 && a == 'd' && b == 'e' && z == 'e' then Some(German)
      else if n == 2 && a == 'e' && b == 'l' && z == 'l' then Some(Greek)
      else if n == 2 && a == 'h' && b == 'e' && z == 'e' then Some(Hebrew)
      else if n == 2 && a == 'h' && b == 'i' && z == 'i' then Some(Hindi)
      else if n == 2 && a == 'h' && b == 'u' && z == 'u' then Some(Hungarian)
      else if n == 2 && a == 'i' && b == 'd' && z == 'd' then Some(Indonesian)
      else if n == 2 && a == 'i' && b == 't' && z == 't' then Some(Italian)
      else if n == 2 && a == 'j' && b == 'a' && z == 'a' then Some(Japanese)
      else if n == 2 && a == 'k' && b == 'o' && z == 'o' then Some(Korean)
      else if n == 2 && a == 'm' && b == 's' && z == 's' then Some(Malay)
      else if n == 2 && a == 'n' && b == 'b' && z == 'b' then Some(NorwegianBokmal)
      else if n == 2 && a == 'p' && b == 'l' && z == 'l' then Some(Polish)
      else if n == 5 && a == 'p' && b == 't' && z == 'R' then Some(PortugueseBrazil)
      else if n == 5 && a == 'p' && b == 't' && z == 'T' then Some(Portugese)
      else if n == 2 && a == 'r' && b == 'o' && z == 'o' then Some(Romanian)
      else if n == 2 && a == 'r' && b == 'u' && z == 'u' then Some(Russian)
      else if n == 2 && a == 's' && b == 'k' && z == 'k' then Some(Slovak)
      else if n == 2 && a == 'e' && b == 's' && z == 's' then Some(Spanish)
      else if n == 6 && a == 'e' && b == 's' && z == '9' then Some(SpanishLatinAmerica)
      else if n == 2 && a == 's' && b == 'v' && z == 'v' then Some(Swedish)
      else if n == 2 && a == 't' && b == 'h' && z == 'h' then Some(Thai)
      else if n == 2 && a == 't' && b == 'r' && z == 'r' then Some(Turkish)
      else if n == 2 && a == 'u' && b == 'k' && z == 'k' then Some(Ukrainian)
      else if n == 2 && a == 'v' && b == 'i' && z == 'i' then Some(Vietnamese)
      else None
  }

  /**
   * `Language(code:)`, the failable initialiser built on `init?(rawValue:)`:
   * the case whose raw value is `code`, if there is one.
   */
  function FromCode(code: string): (r: Option<Language>)
    ensures r.Some? ==> Code(r.value) == code
    ensures r.None? ==> forall l :: Code(l) != code
  {
    var c := Candidate(code);
    if c.Some? && Code(c.value) == code then c
    else
      assert forall l :: Code(l) != code by {
        forall l ensures Code(l) != code {
          CandidateOfCode(l);
        }
      }
      None
  }

  lemma CandidateOfCode(l: Language)
    ensures Candidate(Code(l)) == Some(l)
  {
    if |Code(l)| == 2 {
      CandidateOfTwoLetterCode(l);
    } else {
      CandidateOfLongerCode(l);
    }
  }

  lemma CandidateOfTwoLetterCode(l: Language)
    requires |Code(l)| == 2
    ensures Candidate(Code(l)) == Some(l)
  {
  }

  lemma CandidateOfLongerCode(l: Language)
    requires |Code(l)| != 2
    ensures Candidate(Code(l)) == Some(l)
  {
  }

  /** `description` is the code. */
  function Description(l: Language): (d: string)
    ensures FromCode(d) == Some(l)
  {
    CodeRoundTrip(l);
    Code(l)
  }

  /** `Language(code: l.code) == l`. */
  lemma CodeRoundTrip(l: Language)
    ensures FromCode(Code(l)) == Some(l)
  {
    CandidateOfCode(l);
  }

  /**
   * Identity is the value itself (`id` is `self`), so two languages are the
   * same exactly when their codes are.
   */
  lemma CodeInjective(a: Language, b: Language)
    ensures Code(a) == Code(b) <==> a == b
  {
    CodeRoundTrip(a);
    CodeRoundTrip(b);
  }

  /** The initialiser succeeds exactly for the forty listed codes. */
  lemma FromCodeExactlyListed(code: string)
    ensures FromCode(code).Some? <==> exists l :: l in AllLanguages && Code(l) == code
  {
    var r := FromCode(code);
    if r.Some? {
      assert r.value in AllLanguages;
    }
  }

  /**
   * Codes are made of letters, digits and `-`: none holds the `|` that
   * opens the item-id divider or the `/` that separates variant suffixes.
   */
  lemma CodeAlphabet(l: Language)
    ensures '|' !in Code(l) && '/' !in Code(l)
  {
    CodeHasNoBar(l);
  }

  lemma CodeHasNoBar(l: Language)
    ensures '|' !in Code(l)
  {
  }
}
