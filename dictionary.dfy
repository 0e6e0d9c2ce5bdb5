/**
  The bilingual dictionary's state and its initialisation
  (dsnowball_bilingual_init, locate_stem_module): slot 0 is English, slot 1 is
  German, and no dictionary option is accepted.
 */
module Dictionary {
  import opened Wrappers
  import opened StemmerTable

  /** What the server provides and this model does not look inside: the database
      encoding, the locale's lower-casing (lowerstr_with_len), conversion between
      the server encoding and UTF-8 (pg_server_to_any, pg_any_to_server), and the
      lower-cased words of each stop-word file (readstoplist). */
  datatype Server = Server(
    encoding: Encoding,
    lower: string -> string,
    toUtf8: string -> string,
    fromUtf8: string -> string,
    stopWords: string -> set<string>)

  /** The value of a located language slot, as the lexizer reads it. */
  datatype LanguageState = LanguageState(algorithm: Algorithm, needrecode: bool, stoplist: set<string>)

  /** One language slot (DictSnowballLanguage). `stem` stands for both the stem
      entry point and the stemmer environment `z` created with it; None is the
      zeroed slot before a module is located. */
  class DictLanguage {
    var stem: Option<Algorithm>
    var needrecode: bool
    var stoplist: set<string>

    constructor ()
      ensures stem == None && !needrecode && stoplist == {}
    {
      stem := None;
      needrecode := false;
      stoplist := {};
    }

    function State(): LanguageState
      reads this
      requires stem.Some?
    {
      LanguageState(stem.value, needrecode, stoplist)
    }
  }

  /** The dictionary (DictSnowballBilingual): two language slots. */
  class DictBilingual {
    const languages: array<DictLanguage>

    /** Both slots have a stemmer: initialisation has completed. */
    ghost predicate Valid()
      reads this, languages, languages[..]
    {
      languages.Length == 2 && languages[0].stem.Some? && languages[1].stem.Some?
    }

    /** palloc0: two distinct, zeroed slots. */
    constructor ()
      ensures fresh(languages) && languages.Length == 2
      ensures fresh(languages[0]) && fresh(languages[1]) && languages[0] != languages[1]
      ensures languages[0].stem == None && !languages[0].needrecode && languages[0].stoplist == {}
      ensures languages[1].stem == None && !languages[1].needrecode && languages[1].stoplist == {}
    {
      var english := new DictLanguage();
      var german := new DictLanguage();
      languages := new DictLanguage[2][english, german];
    }
  }

  /** locate_stem_module: loads the language's stop words, then binds the first
      module of the table that matches exactly, else the first UTF-8 module with
      recoding; when neither pass finds one it fails and leaves the stemmer
      unset. */
  method LocateStemModule(dl: DictLanguage, lang: string, server: Server) returns (err: Option<InitError>)
    modifies dl
    ensures dl.stoplist == server.stopWords(lang)
    ensures match Locate(StemmerModules, lang, server.encoding)
      case Ok(b) => err == None && dl.stem == Some(b.algorithm) && dl.needrecode == b.needrecode
      case Err(e) => err == Some(e) && dl.stem == old(dl.stem) && dl.needrecode == old(dl.needrecode)
  {
    dl.stoplist := server.stopWords(lang);

    var m := ScanModules(StemmerModules, lang, Exact(server.encoding));
    if m.Some? {
      dl.stem := Some(StemmerModules[m.value].algorithm);
      dl.needrecode := false;
      return None;
    }

    m := ScanModules(StemmerModules, lang, Utf8Fallback);
    if m.Some? {
      dl.stem := Some(StemmerModules[m.value].algorithm);
      dl.needrecode := true;
      return None;
    }

    return Some(NoStemmer(lang, server.encoding));
  }

  /** A dictionary option (DefElem); only its name matters here. */
  datatype DefElem = DefElem(defname: string)

  /** The error raised for an option, chosen by its name without regard to case. */
  function Rejection(defname: string): InitError {
    if SameName("StopWords", defname) then UnexpectedStopWords
    else if SameName("Language", defname) then UnexpectedLanguage
    else UnrecognizedParameter(defname)
  }

  /** The option loop of dsnowball_bilingual_init: the template is fixed to
      English and German, so the first option, whatever its name, is an error. */
  method ValidateOptions(options: seq<DefElem>) returns (err: Option<InitError>)
    ensures err.None? <==> options == []
    ensures options != [] ==> err == Some(Rejection(options[0].defname))
  {
    for i := 0 to |options|
      invariant i == 0
    {
      var defel := options[i];
      if SameName("StopWords", defel.defname) {
        return Some(UnexpectedStopWords);
      } else if SameName("Language", defel.defname) {
        return Some(UnexpectedLanguage);
      } else {
        return Some(UnrecognizedParameter(defel.defname));
      }
    }
    return None;
  }

  /** dsnowball_bilingual_init: any option is an error; with none, both slots are
      located in turn and the first failure, if any, is the result. Once both are
      located, slot 0 is English and slot 1 German, each with its stop words, and
      recoding is on exactly when the database is not UTF-8 (ShippedTableLocates
      shows that with the shipped table neither search fails). */
  method Init(options: seq<DefElem>, server: Server) returns (r: Result<DictBilingual, InitError>)
    ensures options != [] ==> r == Err(Rejection(options[0].defname))
    ensures options == [] ==>
      (r.Ok? <==> Locate(StemmerModules, "english", server.encoding).Ok? &&
                  Locate(StemmerModules, "german", server.encoding).Ok?)
    ensures options == [] && Locate(StemmerModules, "english", server.encoding).Err? ==>
      r == Err(NoStemmer("english", server.encoding))
    ensures (options == [] && Locate(StemmerModules, "english", server.encoding).Ok? &&
             Locate(StemmerModules, "german", server.encoding).Err?) ==>
      r == Err(NoStemmer("german", server.encoding))
    ensures r.Ok? ==> fresh(r.value) && r.value.Valid()
    ensures r.Ok? ==>
      r.value.languages[0].State() == LanguageState(English, server.encoding != Utf8, server.stopWords("english"))
    ensures r.Ok? ==>
      r.value.languages[1].State() == LanguageState(German, server.encoding != Utf8, server.stopWords("german"))
  {
    var db := new DictBilingual();

    var bad := ValidateOptions(options);
    if bad.Some? {
      return Err(bad.value);
    }

    var e := LocateStemModule(db.languages[0], "english", server);
    if e.Some? {
      return Err(e.value);
    }
    e := LocateStemModule(db.languages[1], "german", server);
    if e.Some? {
      return Err(e.value);
    }
    ShippedTableLocates(server.encoding);
    return Ok(db);
  }
}
