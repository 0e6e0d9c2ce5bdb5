/**
  The table of Snowball stemmer modules compiled into the bilingual dictionary,
  and the two-pass search that picks a module for a language and a database
  encoding (locate_stem_module).
 */
module StemmerTable {
  import opened Wrappers

  /** The name of a server encoding other than SQL_ASCII and UTF8; those two have
      constructors of their own, so each encoding has exactly one value. */
  type OtherEncodingName = s: string | s != "SQL_ASCII" && s != "UTF8" witness "LATIN1"

  /** Server encodings. Only SQL_ASCII and UTF8 play a role in the search; every
      other PostgreSQL encoding is known by its name. */
  datatype Encoding = SqlAscii | Utf8 | OtherEncoding(name: OtherEncodingName)

  /** The stemming algorithms linked into the extension. A module's create, close
      and stem entry points all belong to its algorithm. */
  datatype Algorithm = English | German

  /** One row of the module table; EndMarker is the row whose name is NULL. */
  datatype ModuleEntry =
    | Module(name: string, enc: Encoding, algorithm: Algorithm)
    | EndMarker

  /** The shipped table: English and German, both UTF-8, then the end marker. */
  const StemmerModules: seq<ModuleEntry> :=
    [Module("english", Utf8, English), Module("german", Utf8, German), EndMarker]

  /** The errors the dictionary raises (ereport(ERROR, ...)). */
  datatype InitError =
    | UnexpectedStopWords
    | UnexpectedLanguage
    | UnrecognizedParameter(defname: string)
    | NoStemmer(lang: string, encoding: Encoding)

  /** ASCII case folding, as pg_strcasecmp applies it. */
  function Fold(c: char): char {
    if 'A' <= c <= 'Z' then (c as int - 'A' as int + 'a' as int) as char else c
  }

  /** pg_strcasecmp(a, b) == 0. */
  predicate SameName(a: string, b: string) {
    |a| == |b| && forall i :: 0 <= i < |a| ==> Fold(a[i]) == Fold(b[i])
  }

  /** Index of the first end marker: the rows before it are the live table. */
  function EndIndex(table: seq<ModuleEntry>): (n: nat)
    requires EndMarker in table
    ensures n < |table| && table[n] == EndMarker
    ensures forall j :: 0 <= j < n ==> table[j] != EndMarker
  {
    if table[0] == EndMarker then 0 else EndIndex(table[1..]) + 1
  }

  /** The two passes of the search. Exact accepts a module that works in the
      database encoding, or in any encoding (SQL_ASCII); Utf8Fallback accepts a
      UTF-8 module, whose input and output must then be recoded. */
  datatype Pass = Exact(database: Encoding) | Utf8Fallback

  predicate Accepts(pass: Pass, enc: Encoding) {
    match pass
    case Exact(database) => enc == SqlAscii || enc == database
    case Utf8Fallback => enc == Utf8
  }

  /** The row is a module that this pass takes for language `lang`. */
  predicate Selects(entry: ModuleEntry, lang: string, pass: Pass) {
    entry.Module? && Accepts(pass, entry.enc) && SameName(entry.name, lang)
  }

  /** The first live row the pass takes, if any. */
  function FirstMatch(table: seq<ModuleEntry>, lang: string, pass: Pass): (r: Option<nat>)
    requires EndMarker in table
    ensures r.Some? ==> r.value < EndIndex(table) && Selects(table[r.value], lang, pass)
    ensures r.Some? ==> forall j :: 0 <= j < r.value ==> !Selects(table[j], lang, pass)
    ensures r.None? ==> forall j :: 0 <= j < EndIndex(table) ==> !Selects(table[j], lang, pass)
  {
    if table[0] == EndMarker then None
    else if Selects(table[0], lang, pass) then Some(0)
    else
      match FirstMatch(table[1..], lang, pass)
      case Some(i) => Some(i + 1)
      case None => None
  }

  /** One pass over the table: walks the rows up to the end marker and stops at
      the first row the pass takes. */
  method ScanModules(table: seq<ModuleEntry>, lang: string, pass: Pass) returns (found: Option<nat>)
    requires EndMarker in table
    ensures found == FirstMatch(table, lang, pass)
  {
    var i := 0;
    while table[i] != EndMarker
      invariant i <= EndIndex(table)
      invariant forall j :: 0 <= j < i ==> !Selects(table[j], lang, pass)
      decreases EndIndex(table) - i
    {
      if Selects(table[i], lang, pass) {
        return Some(i);
      }
      i := i + 1;
    }
    return None;
  }

  /** What the search binds into a dictionary slot: the module's algorithm, and
      whether text must be recoded to UTF-8 around each stem call. */
  datatype Binding = Binding(algorithm: Algorithm, needrecode: bool)

  /** The outcome of locate_stem_module: the first exact match without recoding,
      else the first UTF-8 module with recoding, else an error naming language
      and encoding. */
  function Locate(table: seq<ModuleEntry>, lang: string, database: Encoding): (r: Result<Binding, InitError>)
    requires EndMarker in table
    ensures r.Err? <==>
      forall j :: 0 <= j < EndIndex(table) ==>
        !Selects(table[j], lang, Exact(database)) && !Selects(table[j], lang, Utf8Fallback)
    ensures r.Err? ==> r.error == NoStemmer(lang, database)
    ensures r.Ok? ==>
      var pass := if r.value.needrecode then Utf8Fallback else Exact(database);
      exists j :: 0 <= j < EndIndex(table) && Selects(table[j], lang, pass) &&
        table[j].algorithm == r.value.algorithm &&
        forall i :: 0 <= i < j ==> !Selects(table[i], lang, pass)
    ensures r.Ok? && r.value.needrecode ==>
      forall j :: 0 <= j < EndIndex(table) ==> !Selects(table[j], lang, Exact(database))
  {
    match FirstMatch(table, lang, Exact(database))
    case Some(i) => Ok(Binding(table[i].algorithm, false))
    case None =>
      match FirstMatch(table, lang, Utf8Fallback)
      case Some(i) => Ok(Binding(table[i].algorithm, true))
      case None => Err(NoStemmer(lang, database))
  }

  /** With the shipped table the search never fails for English or German: the
      UTF-8 module is taken as is in a UTF-8 database and with recoding in any
      other. */
  lemma ShippedTableLocates(database: Encoding)
    ensures Locate(StemmerModules, "english", database) == Ok(Binding(English, database != Utf8))
    ensures Locate(StemmerModules, "german", database) == Ok(Binding(German, database != Utf8))
  {
  }

  /** The search compares names without regard to ASCII case: "English" and
      "english" select the same module. */
  lemma FirstMatchIgnoresCase(table: seq<ModuleEntry>, a: string, b: string, pass: Pass)
    requires EndMarker in table
    requires SameName(a, b)
    ensures FirstMatch(table, a, pass) == FirstMatch(table, b, pass)
  {
  }
}
