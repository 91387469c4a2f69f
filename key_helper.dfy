/** KeyHelper: validating metric keys and replacing the characters that are
    not allowed in them. A null string is `None`. */
module KeyHelper {
  import opened Wrappers

  /** `_badChars`: the characters Sanitize replaces with '_'. */
  const BadChars: string := "! \0\t;:/\\#%$^*"

  /** The characters `_validKey` excludes explicitly, besides whitespace. */
  const PatternExcluded: string := "!;:/\\#%$^*"

  /** The .NET regular-expression class `\s`: the ASCII controls \t \n \v \f
      \r, U+0085, and the Unicode separators (categories Zs, Zl and Zp). */
  predicate IsWhitespace(c: char)
  {
    || c == ' ' || ('\t' <= c <= '\r')
    || c == '\U{0085}' || c == '\U{00A0}' || c == '\U{1680}'
    || ('\U{2000}' <= c <= '\U{200A}')
    || c == '\U{2028}' || c == '\U{2029}' || c == '\U{202F}' || c == '\U{205F}' || c == '\U{3000}'
  }

  /** A character outside `[^!\s;:/\\#%\$\^\*]`. */
  predicate Excluded(c: char)
  {
    c in PatternExcluded || IsWhitespace(c)
  }

  predicate NoneExcluded(s: string)
  {
    forall i :: 0 <= i < |s| ==> !Excluded(s[i])
  }

  /** `_validKey.IsMatch(s)` for `^[^…]+$` as .NET evaluates it: `$` without
      the Multiline option matches at the very end and also just before a
      final '\n'. */
  predicate MatchesKeyPatternAsWritten(s: string)
  {
    || (|s| > 0 && NoneExcluded(s))
    || (|s| > 1 && s[|s| - 1] == '\n' && NoneExcluded(s[..|s| - 1]))
  }

  /** IsValidKey as written: null, empty, or matching `_validKey`. */
  predicate IsValidKey(key: Option<string>)
  {
    key.None? || key.value == [] || MatchesKeyPatternAsWritten(key.value)
  }

  /** The evidently intended rule: null, empty, or made only of allowed
      characters (the pattern anchored at the true end of the string). */
  predicate IsValidKeyIntended(key: Option<string>)
  {
    key.None? || NoneExcluded(key.value)
  }

  /** As written, a trailing newline slips through the anchor: "ab\n" is
      accepted, though the newline would end the metric line early. */
  lemma TrailingNewlineAcceptedAsWritten()
    ensures IsValidKey(Some("ab\n"))
    ensures !IsValidKeyIntended(Some("ab\n"))
  {
    assert "ab\n"[..2] == "ab";
    assert Excluded("ab\n"[2]);
  }

  /** The two readings differ exactly on keys that end in '\n' after
      at least one allowed character. */
  lemma AsWrittenVersusIntended(key: Option<string>)
    ensures IsValidKey(key) <==>
      || IsValidKeyIntended(key)
      || (var s := key.value; |s| > 1 && s[|s| - 1] == '\n' && NoneExcluded(s[..|s| - 1]))
  {
  }

  /** The intended key rule spelled out: a non-null key is valid exactly when
      none of its characters is one of ! ; : / \ # % $ ^ * or whitespace; so
      '.', '(' and ')' are allowed, and a valid key never holds a line break. */
  lemma ValidKeyCharacters(s: string)
    ensures IsValidKeyIntended(Some(s)) <==>
      forall i :: 0 <= i < |s| ==>
        && s[i] != '!' && s[i] != ';' && s[i] != ':' && s[i] != '/' && s[i] != '\\'
        && s[i] != '#' && s[i] != '%' && s[i] != '$' && s[i] != '^' && s[i] != '*'
        && !IsWhitespace(s[i])
    ensures IsValidKeyIntended(Some(s)) ==> '\n' !in s && '\r' !in s && ':' !in s
  {
  }

  /** What the check as written lets through: none of ! ; : / \ # % $ ^ *,
      and no whitespace except one final '\n'. */
  lemma ValidKeyNoDelimiters(s: string)
    requires IsValidKey(Some(s))
    ensures forall i :: 0 <= i < |s| ==>
      s[i] !in PatternExcluded && (IsWhitespace(s[i]) ==> i == |s| - 1 && s[i] == '\n')
  {
    if !NoneExcluded(s) {
      var t := s[..|s| - 1];
      assert forall i :: 0 <= i < |s| - 1 ==> s[i] == t[i];
    }
  }

  /** Null and empty keys are valid, under either rule. */
  lemma NullAndEmptyAreValid()
    ensures IsValidKey(None) && IsValidKey(Some(""))
    ensures IsValidKeyIntended(None) && IsValidKeyIntended(Some(""))
  {
  }

  /** The keys the unit tests accept, and "\0", which the code accepts as
      well because NUL is not in the pattern's excluded class. */
  lemma ValidKeyExamples()
    ensures IsValidKey(Some("(foo)")) && IsValidKey(Some("goodKey"))
    ensures IsValidKey(Some("multi.level")) && IsValidKey(Some("\0"))
  {
  }

  /** The one-character keys the unit tests reject. */
  lemma InvalidKeyExamples()
    ensures !IsValidKey(Some(" ")) && !IsValidKey(Some("!")) && !IsValidKey(Some("#"))
    ensures !IsValidKey(Some("$")) && !IsValidKey(Some("/")) && !IsValidKey(Some("\\"))
    ensures !IsValidKey(Some(";")) && !IsValidKey(Some(":")) && !IsValidKey(Some("%"))
    ensures !IsValidKey(Some("^")) && !IsValidKey(Some("*"))
  {
    ExcludedCharInvalid(' ');
    ExcludedCharInvalid('!');
    ExcludedCharInvalid('#');
    ExcludedCharInvalid('$');
    ExcludedCharInvalid('/');
    ExcludedCharInvalid('\\');
    ExcludedCharInvalid(';');
    ExcludedCharInvalid(':');
    ExcludedCharInvalid('%');
    ExcludedCharInvalid('^');
    ExcludedCharInvalid('*');
  }

  /** A key of one excluded character fails the check. */
  lemma ExcludedCharInvalid(c: char)
    requires Excluded(c)
    ensures !IsValidKey(Some([c]))
  {
    assert [c][0] == c;
  }

  /** The character Sanitize writes at a position holding `c`. */
  function Replacement(c: char): char
  {
    if c in BadChars then '_' else c
  }

  /** Reference definition of Sanitize: null becomes "", a valid key is
      returned as it is, any other key has each bad character replaced. */
  function Sanitized(key: Option<string>): string
  {
    match key
    case None => ""
    case Some(k) =>
      if IsValidKey(key) then k else seq(|k|, i requires 0 <= i < |k| => Replacement(k[i]))
  }

  /** Sanitize keeps the length; a valid key is unchanged; in an invalid key
      each bad character becomes '_' and every other character stays in
      place. */
  lemma SanitizedShape(k: string)
    ensures |Sanitized(Some(k))| == |k|
    ensures IsValidKey(Some(k)) ==> Sanitized(Some(k)) == k
    ensures !IsValidKey(Some(k)) ==> forall i :: 0 <= i < |k| ==>
      Sanitized(Some(k))[i] == (if k[i] in BadChars then '_' else k[i])
  {
  }

  /** Sanitizing twice is sanitizing once. */
  lemma SanitizeIdempotent(key: Option<string>)
    ensures Sanitized(Some(Sanitized(key))) == Sanitized(key)
  {
    var r := Sanitized(key);
    if !IsValidKey(Some(r)) {
      var k := key.value;
      assert forall i :: 0 <= i < |r| ==> r[i] == Replacement(k[i]);
      assert forall i :: 0 <= i < |r| ==> Replacement(r[i]) == r[i] by {
        forall i | 0 <= i < |r| ensures Replacement(r[i]) == r[i] {
          assert Replacement(Replacement(k[i])) == Replacement(k[i]);
        }
      }
    }
  }

  /** A sanitized key never holds one of the pattern's explicit delimiters
      (':' and '|'-free framing relies on the former); whitespace survives
      only when it is not one of the bad characters. */
  lemma SanitizedHasNoDelimiters(key: Option<string>)
    ensures var r := Sanitized(key);
      forall i :: 0 <= i < |r| ==> r[i] !in PatternExcluded && (IsWhitespace(r[i]) ==> r[i] !in BadChars)
  {
    var r := Sanitized(key);
    forall i | 0 <= i < |r|
      ensures r[i] !in PatternExcluded && (IsWhitespace(r[i]) ==> r[i] !in BadChars)
    {
      if !IsValidKey(key) {
        assert r[i] == Replacement(key.value[i]);
      } else {
        ValidKeyNoDelimiters(key.value);
      }
    }
  }

  /** When its only whitespace is space or tab, a sanitized key is valid. */
  lemma SanitizedIsValid(k: string)
    requires forall i :: 0 <= i < |k| ==> IsWhitespace(k[i]) ==> k[i] == ' ' || k[i] == '\t'
    ensures IsValidKeyIntended(Some(Sanitized(Some(k))))
  {
    var r := Sanitized(Some(k));
    if IsValidKey(Some(k)) {
      ValidKeyNoDelimiters(k);
    } else {
      forall i | 0 <= i < |r| ensures !Excluded(r[i]) {
        assert r[i] == Replacement(k[i]);
      }
    }
  }

  /** Sanitize does not always produce a valid key: a newline is whitespace
      the pattern rejects but is not a bad character, and a NUL is a bad
      character the pattern accepts. */
  lemma SanitizeMayLeaveKeyUnchanged()
    ensures Sanitized(Some("a\nb")) == "a\nb" && !IsValidKey(Some("a\nb"))
    ensures Sanitized(Some("\0")) == "\0"
  {
    var k := "a\nb";
    assert Excluded(k[1]);
    var r := Sanitized(Some(k));
    assert r[0] == 'a' && r[1] == '\n' && r[2] == 'b';
  }

  /** The check as written passes "\0\n", so Sanitize returns it as it is:
      the NUL bad character and the newline both stay. */
  lemma SanitizeKeepsTrailingNewlineKey()
    ensures Sanitized(Some("\0\n")) == "\0\n"
  {
    assert "\0\n"[..1] == "\0";
  }

  /** Unit-test example: a key with a dot is kept as it is. */
  lemma SanitizeKeepsDottedKey()
    ensures Sanitized(Some("my.key")) == "my.key"
  {
    LowerCaseAndDotsAllowed("my.key");
  }

  /** Lower-case letters and dots are never excluded. */
  lemma LowerCaseAndDotsAllowed(s: string)
    requires forall i :: 0 <= i < |s| ==> 'a' <= s[i] <= 'z' || s[i] == '.'
    ensures IsValidKey(Some(s))
  {
  }

  /** Replacing in an invalid key, position by position. */
  lemma ReplacedAt(k: string, r: string)
    requires !IsValidKey(Some(k)) && |r| == |k|
    requires forall i :: 0 <= i < |k| ==> r[i] == Replacement(k[i])
    ensures Sanitized(Some(k)) == r
  {
  }

  /** Unit-test example: "ju!nk" becomes "ju_nk". */
  lemma SanitizeReplacesBang()
    ensures Sanitized(Some("ju!nk")) == "ju_nk"
  {
    assert Excluded("ju!nk"[2]);
    ReplacedAt("ju!nk", "ju_nk");
  }

  /** Unit-test example: NUL, tab and space in an invalid key all become '_'. */
  lemma SanitizeReplacesControls()
    ensures Sanitized(Some("\0\t ")) == "___"
  {
    assert Excluded("\0\t "[1]);
    ReplacedAt("\0\t ", "___");
  }

  /** A StringBuilder: a mutable character buffer. */
  class StringBuilder {
    var chars: seq<char>

    constructor (s: string)
      ensures chars == s
    {
      chars := s;
    }

    method Clear()
      modifies this
      ensures chars == []
    {
      chars := [];
    }

    method Append(s: string)
      modifies this
      ensures chars == old(chars) + s
    {
      chars := chars + s;
    }

    /** The indexer's setter, `sb[i] = c`. */
    method SetAt(i: nat, c: char)
      requires i < |chars|
      modifies this
      ensures chars == old(chars)[i := c]
    {
      chars := chars[i := c];
    }

    function ToString(): string
      reads this
    {
      chars
    }
  }

  /** Sanitize(key). `pooled` is what the builder pool's Pop handed out
      (null when the pool was empty); a pooled builder in any state is cleared
      and refilled, so the result does not depend on it. */
  method Sanitize(key: Option<string>, pooled: StringBuilder?) returns (r: string)
    modifies pooled
    ensures r == Sanitized(key)
  {
    if key.None? {
      return "";
    }
    var k := key.value;
    if IsValidKey(key) {
      return k;
    }
    var sanitized: StringBuilder;
    if pooled != null {
      sanitized := pooled;
      sanitized.Clear();
      sanitized.Append(k);
    } else {
      sanitized := new StringBuilder(k);
    }
    for i := 0 to |k|
      invariant |sanitized.chars| == |k|
      invariant forall j :: 0 <= j < i ==> sanitized.chars[j] == Replacement(k[j])
      invariant forall j :: i <= j < |k| ==> sanitized.chars[j] == k[j]
    {
      if k[i] in BadChars {
        sanitized.SetAt(i, '_');
      }
    }
    r := sanitized.ToString();
  }
}
