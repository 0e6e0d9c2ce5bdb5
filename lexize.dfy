/**
  Turning one word into lexemes (dsnowball_bilingual_lexize, lexize_language):
  the lower-cased word goes through the English slot and then the German slot;
  each slot that does not stop-list it contributes its stem, and the result is a
  zero-terminated array of three entries.
 */
module Lexize {
  import opened Wrappers
  import opened StemmerTable
  import opened Dictionary

  /** The Snowball stemmers (libstemmer): given an algorithm and a word in UTF-8
      or the server encoding, the buffer the stemmer leaves behind. None is a
      NULL buffer; Some(s) is its first l bytes. */
  type Stemmer = (Algorithm, string) -> Option<string>

  /** One result entry (TSLexeme). A NULL lexeme is None. */
  datatype TSLexeme = TSLexeme(nvariant: nat, flags: nat, lexeme: Option<string>)

  /** An entry as palloc0 or memset leaves it: the array's terminator. */
  const Zeroed := TSLexeme(0, 0, None)

  /** The lexeme one language slot produces for the lower-cased word `txt`:
      recode to UTF-8 if the slot needs it, stem, keep the stemmer's output when
      it is non-empty and the input otherwise, and recode back. So when the
      stemmer leaves nothing the lexeme is the word itself (provided recoding to
      UTF-8 and back gives the word again), and otherwise it is the stemmer's
      output in the server encoding. */
  function LanguageLexeme(lang: LanguageState, txt: string, server: Server, stemmer: Stemmer): (r: string)
    ensures var out := stemmer(lang.algorithm, if lang.needrecode then server.toUtf8(txt) else txt);
      (out.None? || out.value == "") && (lang.needrecode ==> server.fromUtf8(server.toUtf8(txt)) == txt) ==>
        r == txt
    ensures var out := stemmer(lang.algorithm, if lang.needrecode then server.toUtf8(txt) else txt);
      out.Some? && out.value != "" ==>
        r == if lang.needrecode then server.fromUtf8(out.value) else out.value
  {
    var input := if lang.needrecode then server.toUtf8(txt) else txt;
    var stemmed :=
      match stemmer(lang.algorithm, input)
      case Some(s) => if s != "" then s else input
      case None => input;
    if lang.needrecode then server.fromUtf8(stemmed) else stemmed
  }

  /** lexize_language: computes the slot's lexeme step by step on one buffer and
      stores it in entry k, leaving the entry's other fields and every other entry
      as they were. */
  method LexizeLanguage(res: array<TSLexeme>, k: nat, txt: string, dl: DictLanguage, server: Server, stemmer: Stemmer)
    requires k < res.Length && dl.stem.Some?
    modifies res
    ensures res[..] == old(res[..])[k := old(res[k]).(lexeme := Some(LanguageLexeme(dl.State(), txt, server, stemmer)))]
  {
    var buf := txt;
    if dl.needrecode {
      buf := server.toUtf8(buf);
    }
    var out := stemmer(dl.stem.value, buf);
    if out.Some? && out.value != "" {
      buf := out.value;
    }
    if dl.needrecode {
      buf := server.fromUtf8(buf);
    }
    res[k] := res[k].(lexeme := Some(buf));
  }

  /** Whether a slot contributes a lexeme for `txt`: exactly when its stop list
      does not hold the word. */
  predicate Contributes(lang: LanguageState, txt: string) {
    txt !in lang.stoplist
  }

  /** The result of lexizing `word`, defined from the list of lexemes the two
      slots produce in order (English first): no entries for an empty word; one
      entry; or two when both slots contribute and their lexemes differ, the
      second marked as a variant of the first. */
  function LexizeResult(word: string, english: LanguageState, german: LanguageState, server: Server, stemmer: Stemmer): (r: seq<TSLexeme>)
    ensures |r| == 3 && r[2] == Zeroed
    ensures server.lower(word) == "" ==> r == [Zeroed, Zeroed, Zeroed]
    ensures r[0].nvariant == 0 && r[0].flags == 0 && r[1].flags == 0
    ensures r[0].lexeme.None? ==> r[1] == Zeroed
    ensures r[1].lexeme.None? ==> r[1] == Zeroed
    ensures var txt := server.lower(word);
      r[0].lexeme.Some? <==> txt != "" && (Contributes(english, txt) || Contributes(german, txt))
    ensures var txt := server.lower(word);
      r[0].lexeme.Some? ==>
        r[0].lexeme.value ==
          if Contributes(english, txt) then LanguageLexeme(english, txt, server, stemmer)
          else LanguageLexeme(german, txt, server, stemmer)
    ensures var txt := server.lower(word);
      r[1].lexeme.Some? <==>
        txt != "" && Contributes(english, txt) && Contributes(german, txt) &&
        LanguageLexeme(english, txt, server, stemmer) != LanguageLexeme(german, txt, server, stemmer)
    ensures var txt := server.lower(word);
      r[1].lexeme.Some? ==>
        r[1].nvariant == 1 && r[1].lexeme.value == LanguageLexeme(german, txt, server, stemmer)
  {
    var txt := server.lower(word);
    if txt == "" then [Zeroed, Zeroed, Zeroed]
    else
      var produced :=
        (if Contributes(english, txt) then [LanguageLexeme(english, txt, server, stemmer)] else []) +
        (if Contributes(german, txt) then [LanguageLexeme(german, txt, server, stemmer)] else []);
      if |produced| == 0 then [Zeroed, Zeroed, Zeroed]
      else if |produced| == 1 || produced[0] == produced[1] then
        [TSLexeme(0, 0, Some(produced[0])), Zeroed, Zeroed]
      else
        [TSLexeme(0, 0, Some(produced[0])), TSLexeme(1, 0, Some(produced[1])), Zeroed]
  }

  /** dsnowball_bilingual_lexize: fills a fresh, zeroed array of three entries
      with a running count of lexemes, marks a second lexeme as a variant, and
      clears it again when it equals the first. */
  method Lexize(db: DictBilingual, word: string, server: Server, stemmer: Stemmer) returns (res: array<TSLexeme>)
    requires db.Valid()
    ensures fresh(res) && res.Length == 3
    ensures res[..] == LexizeResult(word, db.languages[0].State(), db.languages[1].State(), server, stemmer)
  {
    res := new TSLexeme[3](_ => Zeroed);
    var txt := server.lower(word);

    if txt == "" {
      // nothing to lexize: every entry stays zeroed
    } else {
      var lexemeCount := 0;

      if txt in db.languages[0].stoplist {
        // stop word in English: no English lexeme
      } else {
        LexizeLanguage(res, lexemeCount, txt, db.languages[0], server, stemmer);
        lexemeCount := lexemeCount + 1;
      }

      txt := server.lower(word);

      if txt in db.languages[1].stoplist {
        // stop word in German: no German lexeme
      } else {
        LexizeLanguage(res, lexemeCount, txt, db.languages[1], server, stemmer);
        lexemeCount := lexemeCount + 1;
      }

      if lexemeCount == 2 {
        res[1] := res[1].(nvariant := 1);
        if res[0].lexeme == res[1].lexeme {
          res[1] := Zeroed;
        }
      }
    }
  }
}
