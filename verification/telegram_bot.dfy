/**
 * The message handler of the chat bot: which texts start a search, and how a
 * text is turned into the single command-line word handed to the scraper.
 */
module TelegramBot {
  import opened Wrappers
  import opened Chars
  import opened PyStr
  import Scraper

  /** `str.isspace()`: true for a non-empty string of whitespace only. */
  predicate IsSpaceStr(s: string)
  {
    |s| > 0 && forall i :: 0 <= i < |s| ==> IsSpace(s[i])
  }

  /** The guard of the handler: non-empty, not all whitespace, not one character. It lets
      through exactly the texts of two or more characters, one of them not whitespace. */
  function Accepts(text: string): (r: bool)
    ensures r <==> |text| >= 2 && HasNonSpace(text)
  {
    assert HasNonSpace(text) ==> !IsSpaceStr(text) by {
      if HasNonSpace(text) {
        var i :| 0 <= i < |text| && !IsSpace(text[i]);
      }
    }
    text != [] && !IsSpaceStr(text) && |text| != 1
  }

  /** `re.sub(r'\s+', ' ', text).strip().lower()`: the text as the user meant it, cleaned of stray whitespace. */
  function Cleaned(text: string): string
  {
    LowerStr(Strip(Collapse(text)))
  }

  /** `.replace(' ', '_').replace('-', '_')`: spaces and hyphens both become underscores. */
  function Encode(q: string): string
  {
    ReplaceChar(ReplaceChar(q, ' ', '_'), '-', '_')
  }

  /** The word built from a message text; cleaning only drops and lowers characters, and the
      replacements keep the length, so the word is never longer than the text. */
  function Normalize(text: string): (r: string)
    ensures |r| <= |text|
  {
    Encode(Cleaned(text))
  }

  /** The word the handler passes to the scraper after `-n`, or `None` when it ignores the text. */
  function HandleResponse(text: string): (r: Option<string>)
    ensures r.Some? <==> |text| >= 2 && HasNonSpace(text)
    ensures r.Some? ==> r.value == Normalize(text)
  {
    if Accepts(text) then Some(Normalize(text)) else None
  }

  /** The query the scraper searches for once it has read the handler's word back. */
  function Searched(text: string): string
  {
    Scraper.DecodeName(Normalize(text))
  }

  /** Every whitespace character of `s` is a plain space. */
  predicate PlainSpaces(s: string)
  {
    forall i :: 0 <= i < |s| && IsSpace(s[i]) ==> s[i] == ' '
  }

  lemma SlicePlainSpaces(c: string, a: nat, b: nat)
    requires PlainSpaces(c) && a <= b <= |c|
    ensures PlainSpaces(c[a..b])
  {
    forall i | 0 <= i < b - a && IsSpace(c[a..b][i]) ensures c[a..b][i] == ' ' {
      assert c[a..b][i] == c[a + i];
    }
  }

  lemma LowerPlainSpaces(s: string)
    requires PlainSpaces(s)
    ensures PlainSpaces(LowerStr(s))
  {
    LowerStrKeepsClass(s);
  }

  lemma CollapsePlainSpaces(text: string)
    ensures PlainSpaces(Collapse(text))
  {
    CollapseSpaces(text);
  }

  lemma StripPlainSpaces(c: string)
    requires PlainSpaces(c)
    ensures PlainSpaces(Strip(c))
  {
    SlicePlainSpaces(c, LeadingSpaces(c), LeadingSpaces(c) + |Strip(c)|);
  }

  lemma CleanedPlainSpaces(text: string)
    ensures PlainSpaces(Cleaned(text))
  {
    CollapsePlainSpaces(text);
    StripPlainSpaces(Collapse(text));
    LowerPlainSpaces(Strip(Collapse(text)));
  }

  /** After `Encode` a string whose whitespace is plain spaces has no whitespace and no hyphen. */
  lemma EncodeNoSpace(q: string)
    requires PlainSpaces(q)
    ensures NoSpace(Encode(q)) && ' ' !in Encode(q) && '-' !in Encode(q)
  {
    var v := Encode(q);
    forall i | 0 <= i < |v| ensures !IsSpace(v[i]) && v[i] != ' ' && v[i] != '-' {
    }
  }

  /** The normalised word is one command-line argument: no whitespace, and no hyphen either. */
  lemma NormalizeNoSpace(text: string)
    ensures NoSpace(Normalize(text))
    ensures ' ' !in Normalize(text) && '-' !in Normalize(text)
  {
    CleanedPlainSpaces(text);
    EncodeNoSpace(Cleaned(text));
  }

  lemma EncodeLower(q: string)
    requires LowerStr(q) == q
    ensures LowerStr(Encode(q)) == Encode(q)
  {
    var v := Encode(q);
    forall i | 0 <= i < |v| ensures Lower(v[i]) == v[i] {
      assert Lower(q[i]) == q[i];
    }
  }

  /** The normalised word is already lower case. */
  lemma NormalizeLower(text: string)
    ensures LowerStr(Normalize(text)) == Normalize(text)
  {
    LowerStrIdempotent(Strip(Collapse(text)));
    EncodeLower(Cleaned(text));
  }

  lemma ReplaceAbsent(s: string, a: char, b: char)
    requires a !in s
    ensures ReplaceChar(s, a, b) == s
  {
  }

  /** Normalising a normalised word changes nothing. */
  lemma NormalizeIdempotent(text: string)
    ensures Normalize(Normalize(text)) == Normalize(text)
  {
    var v := Normalize(text);
    NormalizeNoSpace(text);
    NormalizeLower(text);
    CollapseNoSpace(v);
    StripNoSpace(v);
    ReplaceAbsent(v, ' ', '_');
    ReplaceAbsent(v, '-', '_');
  }

  /** A text with a non-space character keeps one through `Collapse`. */
  lemma CollapseHasNonSpace(text: string)
    ensures HasNonSpace(Collapse(text)) <==> HasNonSpace(text)
  {
    var c := Collapse(text);
    CollapseKeepsText(text);
    if HasNonSpace(text) {
      var i :| 0 <= i < |text| && !IsSpace(text[i]);
      NonSpacesMember(text, text[i]);
      NonSpacesMember(c, text[i]);
    }
    if HasNonSpace(c) {
      var j :| 0 <= j < |c| && !IsSpace(c[j]);
      NonSpacesMember(c, c[j]);
      NonSpacesMember(text, c[j]);
    }
  }

  /** `strip()` leaves something exactly when there is a non-space character. */
  lemma StripEmpty(s: string)
    ensures |Strip(s)| == 0 <==> !HasNonSpace(s)
  {
    if |Strip(s)| > 0 {
      assert Strip(s)[0] == s[LeadingSpaces(s)];
    }
  }

  /** The word is empty exactly when the text holds nothing but whitespace; a text the guard accepts never gives an empty word. */
  lemma NormalizeEmpty(text: string)
    ensures |Normalize(text)| == 0 <==> !HasNonSpace(text)
    ensures Accepts(text) ==> |Normalize(text)| > 0
  {
    CollapseHasNonSpace(text);
    StripEmpty(Collapse(text));
  }

  /** Reading an encoded lower-case string back turns its underscores and hyphens into spaces. */
  lemma DecodeEncode(q: string)
    requires LowerStr(q) == q
    ensures Scraper.DecodeName(Encode(q)) == ReplaceChar(ReplaceChar(q, '_', ' '), '-', ' ')
  {
    var d := Scraper.DecodeName(Encode(q));
    var e := ReplaceChar(ReplaceChar(q, '_', ' '), '-', ' ');
    forall i | 0 <= i < |d| ensures d[i] == e[i] {
      assert Lower(q[i]) == q[i];
    }
  }

  /**
   * Reading the word back on the scraper's side gives the cleaned, lower-cased text
   * with every underscore and hyphen of it turned into a space.
   */
  lemma SearchedText(text: string)
    ensures Searched(text) == ReplaceChar(ReplaceChar(Cleaned(text), '_', ' '), '-', ' ')
  {
    LowerStrIdempotent(Strip(Collapse(text)));
    DecodeEncode(Cleaned(text));
  }

  /** Collapsing and stripping add no character that is not whitespace. */
  lemma StripCollapseKeeps(text: string, ch: char)
    requires !IsSpace(ch) && ch !in text
    ensures ch !in Strip(Collapse(text))
  {
    CollapseMember(text, ch);
    StripKeeps(Collapse(text), ch);
  }

  /** Cleaning brings in no underscore and no hyphen. */
  lemma CleanedKeeps(text: string, ch: char)
    requires (ch == '_' || ch == '-') && ch !in text
    ensures ch !in Cleaned(text)
  {
    StripCollapseKeeps(text, ch);
    LowerKeepsJoin(Strip(Collapse(text)), ch);
  }

  lemma LowerKeepsJoin(s: string, ch: char)
    requires (ch == '_' || ch == '-') && ch !in s
    ensures ch !in LowerStr(s)
  {
    LowerStrKeepsClass(s);
    forall i | 0 <= i < |s| ensures LowerStr(s)[i] != ch {
      assert s[i] != ch;
    }
  }

  /** For a text without underscores or hyphens the round trip through the command line loses nothing after cleaning. */
  lemma SearchedRoundTrip(text: string)
    requires '_' !in text && '-' !in text
    ensures Searched(text) == Cleaned(text)
  {
    CleanedKeeps(text, '_');
    CleanedKeeps(text, '-');
    SearchedText(text);
    ReplaceAbsent(Cleaned(text), '_', ' ');
    ReplaceAbsent(Cleaned(text), '-', ' ');
  }
}
