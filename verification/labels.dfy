/** `extractLetter` of js/pipeline.js: from a classifier's class label to the
    letter it stands for. Only ASCII whitespace and ASCII letters are
    modelled: `String.prototype.trim` and `toUpperCase` are restricted to them. */
module Labels {
  import opened Wrappers

  /** The ASCII characters `trim` removes: space, tab, line feed, vertical
      tab, form feed and carriage return. */
  predicate IsWhitespace(c: char) {
    c == ' ' || 9 <= c as int <= 13
  }

  predicate IsAsciiLower(c: char) {
    'a' <= c <= 'z'
  }

  /** The characters matched by the regular expression `/[a-z]/i`. */
  predicate IsAsciiLetter(c: char) {
    IsAsciiLower(c) || 'A' <= c <= 'Z'
  }

  /** `toUpperCase` on one ASCII character. */
  function ToUpper(c: char): (u: char)
    ensures !IsAsciiLower(u)
    ensures IsAsciiLetter(c) <==> IsAsciiLetter(u)
    ensures !IsAsciiLower(c) ==> u == c
    // A lower-case letter becomes the upper-case letter at the same place in the alphabet.
    ensures IsAsciiLower(c) ==> 'A' <= u <= 'Z' && u as int - 'A' as int == c as int - 'a' as int
  {
    if IsAsciiLower(c) then (c as int - 32) as char else c
  }

  /** `toUpperCase` on a string, character by character. */
  function UpperString(s: string): (u: string)
    ensures |u| == |s|
    ensures forall i :: 0 <= i < |s| ==> u[i] == ToUpper(s[i])
  {
    seq(|s|, i requires 0 <= i < |s| => ToUpper(s[i]))
  }

  /** The number of whitespace characters `s` starts with. */
  function LeadingWhitespace(s: string): (n: nat)
    ensures n <= |s|
    ensures forall k :: 0 <= k < n ==> IsWhitespace(s[k])
    ensures n == |s| || !IsWhitespace(s[n])
  {
    if s == [] || !IsWhitespace(s[0]) then 0
    else
      var n := 1 + LeadingWhitespace(s[1..]);
      assert forall k :: 1 <= k < n ==> s[k] == s[1..][k - 1];
      n
  }

  /** The length of `s` without the whitespace it ends with. */
  function ContentEnd(s: string): (n: nat)
    ensures n <= |s|
    ensures forall k :: n <= k < |s| ==> IsWhitespace(s[k])
    ensures n == 0 || !IsWhitespace(s[n - 1])
  {
    if s == [] || !IsWhitespace(s[|s| - 1]) then |s|
    else ContentEnd(s[..|s| - 1])
  }

  /** `String.prototype.trim`: the label is the trimmed text with only
      whitespace before and after it, and the trimmed text neither starts
      nor ends with whitespace. */
  function Trim(s: string): (r: string)
    ensures exists i, j ::
      && 0 <= i <= j <= |s| && r == s[i..j]
      && (forall k :: 0 <= k < i ==> IsWhitespace(s[k]))
      && (forall k :: j <= k < |s| ==> IsWhitespace(s[k]))
    ensures r == [] || (!IsWhitespace(r[0]) && !IsWhitespace(r[|r| - 1]))
  {
    var start := LeadingWhitespace(s);
    if start == |s| then
      assert s[|s|..|s|] == [];
      []
    else
      s[start..ContentEnd(s)]
  }

  /** The position of the first ASCII letter of `s`, if there is one: the
      first match of `/[a-z]/gi`. */
  function FirstLetter(s: string): (r: Option<nat>)
    ensures r.Some? ==> r.value < |s| && IsAsciiLetter(s[r.value])
    ensures r.Some? ==> forall k :: 0 <= k < r.value ==> !IsAsciiLetter(s[k])
    ensures r.None? ==> forall k :: 0 <= k < |s| ==> !IsAsciiLetter(s[k])
  {
    if s == [] then None
    else if IsAsciiLetter(s[0]) then Some(0)
    else
      match FirstLetter(s[1..])
      case Some(k) => Some(k + 1)
      case None => None
  }

  /** `extractLetter(className)`. */
  function ExtractLetter(className: string): (r: Option<string>)
    // No letter exactly when the label is blank.
    ensures r.None? <==> Trim(className) == []
    // Any letter is non-empty and carries no lower-case ASCII letter.
    ensures r.Some? ==> r.value != [] && forall k :: 0 <= k < |r.value| ==> !IsAsciiLower(r.value[k])
    // A one-character label is that character, upper-cased.
    ensures |Trim(className)| == 1 ==> r == Some([ToUpper(Trim(className)[0])])
    // A longer label with an ASCII letter gives its first ASCII letter, upper-cased.
    ensures var t := Trim(className);
      |t| > 1 && (exists k :: 0 <= k < |t| && IsAsciiLetter(t[k])) ==>
        exists k :: 0 <= k < |t| && IsAsciiLetter(t[k]) &&
          (forall j :: 0 <= j < k ==> !IsAsciiLetter(t[j])) &&
          r == Some([ToUpper(t[k])])
    // A longer label without one gives the whole label, upper-cased.
    ensures var t := Trim(className);
      |t| > 1 && (forall k :: 0 <= k < |t| ==> !IsAsciiLetter(t[k])) ==>
        r.Some? && |r.value| == |t| && forall k :: 0 <= k < |t| ==> r.value[k] == ToUpper(t[k])
  {
    var trimmed := Trim(className);
    if trimmed == [] then None
    else if |trimmed| == 1 then
      assert UpperString(trimmed) == [ToUpper(trimmed[0])];
      Some(UpperString(trimmed))
    else
      match FirstLetter(trimmed)
      case Some(k) => Some([ToUpper(trimmed[k])])
      case None => Some(UpperString(trimmed))
  }

  /** A label that neither starts nor ends with whitespace is its own trim. */
  lemma TrimOfUnpadded(s: string)
    requires s != [] && !IsWhitespace(s[0]) && !IsWhitespace(s[|s| - 1])
    ensures Trim(s) == s
  {
    assert LeadingWhitespace(s) == 0;
    assert ContentEnd(s) == |s|;
  }

  /** A one-character label gives that character upper-cased: "a" gives "A"
      and "5" gives "5". */
  lemma SingleCharacterLabel(c: char)
    requires !IsWhitespace(c)
    ensures ExtractLetter([c]) == Some([ToUpper(c)])
  {
    TrimOfUnpadded([c]);
  }

  /** A label made only of whitespace, the empty one included, gives no letter. */
  lemma BlankLabel(s: string)
    requires forall k :: 0 <= k < |s| ==> IsWhitespace(s[k])
    ensures ExtractLetter(s) == None
  {
    assert LeadingWhitespace(s) == |s|;
  }

  /** Whitespace around a label is ignored. */
  lemma PaddingIgnored(s: string, before: string, after: string)
    requires forall k :: 0 <= k < |before| ==> IsWhitespace(before[k])
    requires forall k :: 0 <= k < |after| ==> IsWhitespace(after[k])
    requires s != [] && !IsWhitespace(s[0]) && !IsWhitespace(s[|s| - 1])
    ensures ExtractLetter(before + s + after) == ExtractLetter(s)
  {
    var t := before + s + after;
    TrimOfUnpadded(s);
    assert t[|before|] == s[0];
    assert t[|before| + |s| - 1] == s[|s| - 1];
    assert LeadingWhitespace(t) == |before| by {
      assert forall k :: 0 <= k < |before| ==> t[k] == before[k];
    }
    assert ContentEnd(t) == |before| + |s| by {
      assert forall k :: |before| + |s| <= k < |t| ==> t[k] == after[k - |before| - |s|];
    }
    assert t[|before|..|before| + |s|] == s;
  }

  /** A compound label gives its first ASCII letter, wherever the intended
      letter sits: "Letter_B" gives "L". */
  lemma CompoundLabelGivesFirstLetter()
    ensures ExtractLetter("Letter_B") == Some("L")
  {
    TrimOfUnpadded("Letter_B");
    assert FirstLetter("Letter_B") == Some(0) by {
      assert IsAsciiLetter("Letter_B"[0]);
    }
  }

  /** A label without ASCII letters is kept whole: "12" gives "12". */
  lemma LabelWithoutLetters()
    ensures ExtractLetter("12") == Some("12")
  {
    TrimOfUnpadded("12");
    assert FirstLetter("12") == None by {
      assert FirstLetter("2") == None;
    }
    assert UpperString("12") == "12";
  }
}
