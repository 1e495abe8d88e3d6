/**
 * The transcript normaliser of utilities.py: the seven-step `clean_text`
 * pipeline and the small string functions it is built from, plus the
 * contraction table `en_short_forms`.
 */
module Normalizer {
  import opened Text

  // ------------------------------------------------------------ en_short_forms

  const Pronouns: seq<string> := ["i", "you", "he", "she", "it", "we", "they", "who"]
  const ShortForms: seq<string> := ["'m", "'s", "'ll", "'ve", "'d"]
  const FullForms: seq<string> := ["am", "is", "will", "have", "would"]

  /** The contraction of pronoun `i` with short form `k`, e.g. "she'll". */
  function Contraction(i: nat, k: nat): string
    requires i < |Pronouns| && k < |ShortForms|
  {
    Pronouns[i] + ShortForms[k]
  }

  /** The full form it stands for, e.g. "she will". */
  function Expansion(i: nat, k: nat): string
    requires i < |Pronouns| && k < |FullForms|
  {
    Pronouns[i] + " " + FullForms[k]
  }

  /** Values that `clean_text` can substitute without bringing punctuation
      or stray whitespace back into the text. */
  predicate CleanValues(replacements: map<string, string>) {
    forall key | key in replacements :: Trimmed(replacements[key]) && NoPunctuation(replacements[key])
  }

  /** Position of the first apostrophe in `s`, or `|s|` when there is none. */
  function ApostropheAt(s: string): (n: nat)
    ensures n <= |s|
  {
    if s == [] || s[0] == '\'' then 0 else 1 + ApostropheAt(s[1..])
  }

  lemma {:induction false} ApostropheAfter(p: string, t: string)
    requires '\'' !in p
    requires t != [] && t[0] == '\''
    ensures ApostropheAt(p + t) == |p|
  {
    if p != [] {
      assert (p + t)[1..] == p[1..] + t;
      ApostropheAfter(p[1..], t);
    }
  }

  lemma TableWordsShape()
    ensures forall j | 0 <= j < |Pronouns| :: '\'' !in Pronouns[j]
    ensures forall j | 0 <= j < |ShortForms| :: ShortForms[j] != [] && ShortForms[j][0] == '\''
    ensures forall j, j' | 0 <= j < j' < |Pronouns| :: Pronouns[j] != Pronouns[j']
    ensures forall j, j' | 0 <= j < j' < |ShortForms| :: ShortForms[j] != ShortForms[j']
  {
  }

  /** Distinct (pronoun, short form) pairs give distinct contractions. */
  lemma ContractionInjective(i: nat, k: nat, i': nat, k': nat)
    requires i < |Pronouns| && k < |ShortForms| && i' < |Pronouns| && k' < |ShortForms|
    requires Contraction(i, k) == Contraction(i', k')
    ensures i == i' && k == k'
  {
    TableWordsShape();
    var p, p' := Pronouns[i], Pronouns[i'];
    var s := Contraction(i, k);
    ApostropheAfter(p, ShortForms[k]);
    ApostropheAfter(p', ShortForms[k']);
    assert |p| == |p'|;
    assert p == s[..|p|] == p';
    assert ShortForms[k] == s[|p|..] == ShortForms[k'];
  }

  /** Pair (i', k') is visited before (i, k) by the nested loops of `en_short_forms`. */
  predicate Before(i': nat, k': nat, i: nat, k: nat) {
    i' < i || (i' == i && k' < k)
  }

  /** `forms` holds exactly the entries written before the loops reach (i, k). */
  ghost predicate TableUpTo(forms: map<string, string>, i: nat, k: nat) {
    && (forall i': nat, k': nat | i' < |Pronouns| && k' < |ShortForms| && Before(i', k', i, k) ::
          Contraction(i', k') in forms && forms[Contraction(i', k')] == Expansion(i', k'))
    && (forall key | key in forms ::
          exists i': nat, k': nat :: i' < |Pronouns| && k' < |ShortForms| && Before(i', k', i, k) && key == Contraction(i', k'))
  }

  lemma TableStep(forms: map<string, string>, i: nat, k: nat)
    requires i < |Pronouns| && k < |ShortForms|
    requires TableUpTo(forms, i, k)
    ensures Contraction(i, k) !in forms
    ensures TableUpTo(forms[Contraction(i, k) := Expansion(i, k)], i, k + 1)
  {
    var s := Contraction(i, k);
    if s in forms {
      var i': nat, k': nat :| i' < |Pronouns| && k' < |ShortForms| && Before(i', k', i, k) && s == Contraction(i', k');
      ContractionInjective(i, k, i', k');
      assert false;
    }
    var forms' := forms[s := Expansion(i, k)];
    forall key | key in forms'
      ensures exists i': nat, k': nat :: i' < |Pronouns| && k' < |ShortForms| && Before(i', k', i, k + 1) && key == Contraction(i', k')
    {
      if key == s {
        assert Before(i, k, i, k + 1);
      } else {
        var i': nat, k': nat :| i' < |Pronouns| && k' < |ShortForms| && Before(i', k', i, k) && key == Contraction(i', k');
        assert Before(i', k', i, k + 1);
      }
    }
  }

  lemma TableNextRow(forms: map<string, string>, i: nat)
    requires TableUpTo(forms, i, |ShortForms|)
    ensures TableUpTo(forms, i + 1, 0)
  {
    forall key | key in forms
      ensures exists i': nat, k': nat :: i' < |Pronouns| && k' < |ShortForms| && Before(i', k', i + 1, 0) && key == Contraction(i', k')
    {
      var i': nat, k': nat :| i' < |Pronouns| && k' < |ShortForms| && Before(i', k', i, |ShortForms|) && key == Contraction(i', k');
      assert Before(i', k', i + 1, 0);
    }
  }

  lemma ExpansionClean(i: nat, k: nat)
    requires i < |Pronouns| && k < |FullForms|
    ensures Trimmed(Expansion(i, k)) && NoPunctuation(Expansion(i, k))
  {
  }

  /** `en_short_forms`: for every pronoun and every short form, maps the
      contraction to the pronoun followed by the full form; 40 entries. */
  method EnShortForms() returns (forms: map<string, string>)
    ensures forall i: nat, k: nat | i < |Pronouns| && k < |ShortForms| ::
      Contraction(i, k) in forms && forms[Contraction(i, k)] == Expansion(i, k)
    ensures forall key | key in forms ::
      exists i: nat, k: nat :: i < |Pronouns| && k < |ShortForms| && key == Contraction(i, k)
    ensures |forms| == |Pronouns| * |ShortForms|
    ensures CleanValues(forms)
  {
    forms := map[];
    assert |ShortForms| == 5;
    for i := 0 to |Pronouns|
      invariant TableUpTo(forms, i, 0)
      invariant |forms| == i * |ShortForms|
    {
      for k := 0 to |ShortForms|
        invariant TableUpTo(forms, i, k)
        invariant |forms| == i * |ShortForms| + k
      {
        var s := Pronouns[i] + ShortForms[k];
        var f := Pronouns[i] + " " + FullForms[k];
        TableStep(forms, i, k);
        forms := forms[s := f];
      }
      TableNextRow(forms, i);
    }
    forall key | key in forms
      ensures Trimmed(forms[key]) && NoPunctuation(forms[key])
    {
      var i: nat, k: nat :| i < |Pronouns| && k < |ShortForms| && Before(i, k, |Pronouns|, 0) && key == Contraction(i, k);
      ExpansionClean(i, k);
    }
  }

  // ------------------------------------------------------------ replace_words

  /** One word through the table: looked up by its lower-case form, the value used verbatim. */
  function ReplaceWord(w: string, replacements: map<string, string>): string {
    if Lower(w) in replacements then replacements[Lower(w)] else w
  }

  function ReplaceEach(ws: seq<string>, replacements: map<string, string>): (r: seq<string>)
    ensures |r| == |ws|
    ensures forall k | 0 <= k < |r| :: r[k] == ReplaceWord(ws[k], replacements)
  {
    seq(|ws|, k requires 0 <= k < |ws| => ReplaceWord(ws[k], replacements))
  }

  /** What `replace_words` returns: the replaced words joined by single spaces,
      with surrounding whitespace stripped. */
  function ReplacedWords(text: string, replacements: map<string, string>): string {
    Strip(Join(ReplaceEach(Split(text), replacements), " "))
  }

  /** `replace_words`: appends each (possibly replaced) word and a space, then strips. */
  method ReplaceWords(text: string, replacements: map<string, string>) returns (result: string)
    ensures result == ReplacedWords(text, replacements)
  {
    var words := Split(text);
    ghost var out := ReplaceEach(words, replacements);
    var acc := "";
    for i := 0 to |words|
      invariant i == 0 ==> acc == ""
      invariant i > 0 ==> acc == Join(out[..i], " ") + " "
    {
      var word := words[i];
      if Lower(word) in replacements {
        word := replacements[Lower(word)];
      }
      assert word == out[i];
      if i > 0 {
        assert out[..i + 1] == out[..i] + [word];
        JoinSnoc(out[..i], word, " ");
      } else {
        assert out[..1] == [word];
      }
      acc := acc + word + " ";
    }
    if |words| > 0 {
      assert out[..|words|] == out;
      StripTrailingSpace(Join(out, " "));
    }
    result := Strip(acc);
  }

  /** With values free of surrounding whitespace, `replace_words` is exactly the
      single-space join of the split words, each replaced through the table. */
  lemma ReplacedWordsJoin(text: string, replacements: map<string, string>)
    requires forall key | key in replacements :: Trimmed(replacements[key])
    ensures ReplacedWords(text, replacements) == Join(ReplaceEach(Split(text), replacements), " ")
  {
    var out := ReplaceEach(Split(text), replacements);
    if |out| > 0 {
      forall k | 0 <= k < |out| ensures Trimmed(out[k]) {
        assert IsWord(Split(text)[k]);
      }
      JoinTrimmed(out);
    }
  }

  /** With an empty table, `replace_words` collapses whitespace runs to one space
      and trims both ends. */
  lemma ReplacedWordsEmptyTable(text: string)
    ensures ReplacedWords(text, map[]) == Join(Split(text), " ")
  {
    ReplacedWordsJoin(text, map[]);
    assert ReplaceEach(Split(text), map[]) == Split(text);
  }

  // ------------------------------------------------------------ remove_punctuation

  /** `remove_punctuation`: deletes every character of `string.punctuation`. */
  function RemovePunctuation(s: string): (r: string)
    ensures NoPunctuation(r)
  {
    if s == [] then []
    else (if IsPunctuation(s[0]) then [] else [s[0]]) + RemovePunctuation(s[1..])
  }

  /** Every other character stays, as often as it occurred. */
  lemma {:induction false} RemovePunctuationKeeps(s: string)
    ensures forall c | !IsPunctuation(c) :: multiset(RemovePunctuation(s))[c] == multiset(s)[c]
  {
    if s != [] {
      assert s == [s[0]] + s[1..];
      RemovePunctuationKeeps(s[1..]);
    }
  }

  /** Deletion works character by character, so it keeps the order of what remains. */
  lemma {:induction false} RemovePunctuationAppend(a: string, b: string)
    ensures RemovePunctuation(a + b) == RemovePunctuation(a) + RemovePunctuation(b)
  {
    if a != [] {
      assert (a + b)[0] == a[0];
      assert (a + b)[1..] == a[1..] + b;
      RemovePunctuationAppend(a[1..], b);
    } else {
      assert a + b == b;
    }
  }

  lemma {:induction false} RemovePunctuationClean(s: string)
    requires NoPunctuation(s)
    ensures RemovePunctuation(s) == s
  {
    if s != [] {
      RemovePunctuationClean(s[1..]);
    }
  }

  // ------------------------------------------------------------ remove_words

  /** The words whose lower-case form is not in `toRemove`, in their order. */
  function Kept(ws: seq<string>, toRemove: seq<string>): (r: seq<string>)
    ensures |r| <= |ws|
    ensures forall k | 0 <= k < |r| :: Lower(r[k]) !in toRemove && r[k] in ws
  {
    if ws == [] then []
    else (if Lower(ws[0]) in toRemove then [] else [ws[0]]) + Kept(ws[1..], toRemove)
  }

  /** `remove_words`. */
  function RemoveWords(text: string, toRemove: seq<string>): string {
    Join(Kept(Split(text), toRemove), " ")
  }

  lemma {:induction false} KeptAppend(a: seq<string>, b: seq<string>, toRemove: seq<string>)
    ensures Kept(a + b, toRemove) == Kept(a, toRemove) + Kept(b, toRemove)
  {
    if a != [] {
      var head := if Lower(a[0]) in toRemove then [] else [a[0]];
      assert (a + b)[0] == a[0];
      assert (a + b)[1..] == a[1..] + b;
      assert Kept(a + b, toRemove) == head + Kept(a[1..] + b, toRemove);
      KeptAppend(a[1..], b, toRemove);
      assert Kept(a, toRemove) == head + Kept(a[1..], toRemove);
    } else {
      assert a + b == b;
    }
  }

  lemma {:induction false} KeptAll(ws: seq<string>, toRemove: seq<string>)
    requires forall k | 0 <= k < |ws| :: Lower(ws[k]) !in toRemove
    ensures Kept(ws, toRemove) == ws
  {
    if ws != [] {
      KeptAll(ws[1..], toRemove);
    }
  }

  /** The words of `remove_words`' result are exactly the kept words of its input. */
  lemma RemoveWordsWords(text: string, toRemove: seq<string>)
    ensures Split(RemoveWords(text, toRemove)) == Kept(Split(text), toRemove)
  {
    var ws := Split(text);
    var r := Kept(ws, toRemove);
    forall k | 0 <= k < |r| ensures IsWord(r[k]) {
      var j :| 0 <= j < |ws| && ws[j] == r[k];
    }
    SplitJoin(r);
  }

  /** Removing the same words twice is removing them once. */
  lemma RemoveWordsIdempotent(text: string, toRemove: seq<string>)
    ensures RemoveWords(RemoveWords(text, toRemove), toRemove) == RemoveWords(text, toRemove)
  {
    RemoveWordsWords(text, toRemove);
    KeptAll(Kept(Split(text), toRemove), toRemove);
  }

  // ------------------------------------------------------------ remove_consecutive_duplicates
  //
  // The pattern \b(\w+)(?:\W+\1\b)+ (ignoring case) as the regex engine runs it
  // on ASCII text: at the first character of a word, group 1 can only be the
  // whole word (a shorter group is followed by a word character, which \W+
  // cannot match); each repetition takes the whole gap of non-word characters
  // and then needs the next word to equal group 1 ignoring case and to end
  // there. The match, if any, is replaced by the first word, and the scan
  // resumes after the last repeat.

  /** Length of the run of word characters (`\w`) at the start of `s`. */
  function WordRun(s: string): (n: nat)
    ensures n <= |s|
    ensures forall i | 0 <= i < n :: IsWordChar(s[i])
    ensures n < |s| ==> !IsWordChar(s[n])
  {
    if s == [] || !IsWordChar(s[0]) then 0 else 1 + WordRun(s[1..])
  }

  /** Length of the run of non-word characters (`\W`) at the start of `s`. */
  function GapRun(s: string): (n: nat)
    ensures n <= |s|
    ensures forall i | 0 <= i < n :: !IsWordChar(s[i])
    ensures n < |s| ==> IsWordChar(s[n])
  {
    if s == [] || IsWordChar(s[0]) then 0 else 1 + GapRun(s[1..])
  }

  /** Consumes, from the front of `s`, every repetition `\W+ w'` in which `w'`
      is a whole word equal to `w` ignoring case; returns what is left. */
  function SkipRepeats(w: string, s: string): (r: string)
    ensures |r| <= |s| && r == s[|s| - |r|..]
    decreases |s|
  {
    var g := GapRun(s);
    if g == 0 then s
    else
      var n := WordRun(s[g..]);
      if n > 0 && Lower(s[g..g + n]) == Lower(w) then SkipRepeats(w, s[g + n..]) else s
  }

  /** `remove_consecutive_duplicates`. */
  function RemoveConsecutiveDuplicates(s: string): string
    decreases |s|
  {
    if s == [] then []
    else if !IsWordChar(s[0]) then [s[0]] + RemoveConsecutiveDuplicates(s[1..])
    else
      var n := WordRun(s);
      s[..n] + RemoveConsecutiveDuplicates(SkipRepeats(s[..n], s[n..]))
  }

  /** Every character of `r` occurs in `s`. */
  predicate Within(r: string, s: string) {
    forall c | c in r :: c in s
  }

  lemma WithinJoin(a: string, b: string, s: string, t: string)
    requires Within(a, s) && Within(b, t)
    requires |t| <= |s| && t == s[|s| - |t|..]
    ensures Within(a + b, s)
  {
    forall c | c in a + b ensures c in s {
      if c !in a {
        var j :| 0 <= j < |t| && t[j] == c;
        assert t[j] == s[|s| - |t| + j];
      }
    }
  }

  lemma SuffixOfDrop<T>(s: seq<T>, n: nat, t: seq<T>)
    requires n <= |s| && |t| <= |s| - n && t == s[n..][|s| - n - |t|..]
    ensures t == s[|s| - |t|..]
  {
  }

  lemma RcdAtWordStart(s: string)
    requires s != [] && IsWordChar(s[0])
    ensures var n := WordRun(s);
      RemoveConsecutiveDuplicates(s) == s[..n] + RemoveConsecutiveDuplicates(SkipRepeats(s[..n], s[n..]))
  {
  }

  lemma WithinPrefixJoin(s: string, n: nat, t: string, rest: string)
    requires n <= |s| && |t| <= |s| && t == s[|s| - |t|..]
    requires Within(rest, t)
    ensures Within(s[..n] + rest, s)
  {
    assert Within(s[..n], s) by {
      forall c | c in s[..n] ensures c in s {
        var j :| 0 <= j < n && s[j] == c;
      }
    }
    WithinJoin(s[..n], rest, s, t);
  }

  /** A kept prefix followed by a subsequence of a later suffix is a subsequence. */
  lemma SubsequenceKeepPrefix<T>(s: seq<T>, n: nat, t: seq<T>, rest: seq<T>)
    requires n <= |s| && |t| <= |s| - n && t == s[|s| - |t|..]
    requires Subsequence(rest, t)
    ensures Subsequence(s[..n] + rest, s)
  {
    assert s[n..][|s| - n - |t|..] == t;
    SubsequenceOfSuffix(rest, s[n..], |s| - n - |t|);
    SubsequencePrefix(s[..n], rest, s[n..]);
    assert s[..n] + s[n..] == s;
  }

  lemma RcdAtGap(s: string)
    requires s != [] && !IsWordChar(s[0])
    ensures RemoveConsecutiveDuplicates(s) == [s[0]] + RemoveConsecutiveDuplicates(s[1..])
  {
  }

  /** The substitution only deletes: its result is the input with some
      characters removed. */
  lemma {:induction false} RemoveConsecutiveDuplicatesDeletes(s: string)
    ensures Subsequence(RemoveConsecutiveDuplicates(s), s)
    decreases |s|
  {
    if s != [] {
      if !IsWordChar(s[0]) {
        RemoveConsecutiveDuplicatesDeletes(s[1..]);
        RcdAtGap(s);
        SubsequenceKeepPrefix(s, 1, s[1..], RemoveConsecutiveDuplicates(s[1..]));
        assert s[..1] == [s[0]];
      } else {
        var n := WordRun(s);
        var t := SkipRepeats(s[..n], s[n..]);
        RemoveConsecutiveDuplicatesDeletes(t);
        SuffixOfDrop(s, n, t);
        RcdAtWordStart(s);
        SubsequenceKeepPrefix(s, n, t, RemoveConsecutiveDuplicates(t));
      }
    }
  }

  /** Collapsing repeats never brings in a character the text did not have. */
  lemma {:induction false} RemoveConsecutiveDuplicatesChars(s: string)
    ensures forall c | c in RemoveConsecutiveDuplicates(s) :: c in s
    decreases |s|
  {
    if s != [] {
      if !IsWordChar(s[0]) {
        RemoveConsecutiveDuplicatesChars(s[1..]);
        WithinJoin([s[0]], RemoveConsecutiveDuplicates(s[1..]), s, s[1..]);
      } else {
        var n := WordRun(s);
        var t := SkipRepeats(s[..n], s[n..]);
        RemoveConsecutiveDuplicatesChars(t);
        SuffixOfDrop(s, n, t);
        RcdAtWordStart(s);
        WithinPrefixJoin(s, n, t, RemoveConsecutiveDuplicates(t));
      }
    }
  }

  /** A non-empty run of word characters. */
  predicate IsRegexWord(w: string) {
    |w| > 0 && forall i | 0 <= i < |w| :: IsWordChar(w[i])
  }

  /** The words that differ, ignoring case, from the word just before them;
      `key` is the lower-case form of the word before `ws[0]`. */
  function HeadsAfter(key: string, ws: seq<string>): seq<string>
    decreases |ws|
  {
    if ws == [] then []
    else (if Lower(ws[0]) == key then [] else [ws[0]]) + HeadsAfter(Lower(ws[0]), ws[1..])
  }

  /** The first word of every maximal run of adjacent words equal ignoring case. */
  function RunHeads(ws: seq<string>): seq<string> {
    if ws == [] then [] else [ws[0]] + HeadsAfter(Lower(ws[0]), ws[1..])
  }

  lemma {:induction false} WordRunOfWord(w: string, t: string)
    requires forall i | 0 <= i < |w| :: IsWordChar(w[i])
    requires t == [] || !IsWordChar(t[0])
    ensures WordRun(w + t) == |w|
  {
    if w != [] {
      assert (w + t)[1..] == w[1..] + t;
      WordRunOfWord(w[1..], t);
    }
  }

  /** At a word followed by a non-word character (or the end), the scan emits the
      word and then skips its repeats. */
  lemma RcdAtWord(w: string, t: string)
    requires IsRegexWord(w)
    requires t == [] || !IsWordChar(t[0])
    ensures RemoveConsecutiveDuplicates(w + t) == w + RemoveConsecutiveDuplicates(SkipRepeats(w, t))
  {
    WordRunOfWord(w, t);
    assert (w + t)[..|w|] == w;
    assert (w + t)[|w|..] == t;
  }

  /** The rest of a single-spaced text after its first word: nothing, or a
      space and the remaining words. */
  function Rest(ws: seq<string>): string {
    if ws == [] then "" else " " + Join(ws, " ")
  }

  lemma JoinFirst(ws: seq<string>)
    requires ws != []
    ensures Join(ws, " ") == ws[0] + Rest(ws[1..])
  {
    if |ws| == 1 {
      assert ws[0] + "" == ws[0];
    }
  }

  lemma RestStartsWithGap(ws: seq<string>)
    ensures Rest(ws) == [] || !IsWordChar(Rest(ws)[0])
  {
  }

  /** One repetition step: a space and then the word `v`. */
  lemma SkipRepeatsStep(w: string, v: string, tail: string)
    requires IsRegexWord(v)
    requires tail == [] || !IsWordChar(tail[0])
    ensures SkipRepeats(w, " " + (v + tail)) ==
      if Lower(v) == Lower(w) then SkipRepeats(w, tail) else " " + (v + tail)
  {
    var s := " " + (v + tail);
    WordRunOfWord(v, tail);
    assert s[1..] == v + tail;
    assert GapRun(s[1..]) == 0;
    assert GapRun(s) == 1;
    assert s[1..1 + |v|] == v;
    assert s[1 + |v|..] == tail;
  }

  /** A space is copied through and the scan goes on after it. */
  lemma RcdSpace(x: string)
    ensures RemoveConsecutiveDuplicates(" " + x) == " " + RemoveConsecutiveDuplicates(x)
  {
    var s := " " + x;
    assert s[0] == ' ';
    assert !IsWordChar(s[0]);
    assert s != [];
    assert s[1..] == x;
  }

  /** The induction behind `RemoveConsecutiveDuplicatesWords`: after the word
      `w`, the scan skips the words of `ws` that repeat `w` and then goes on
      with the heads of the later runs. */
  lemma {:induction false} RcdSkipFrom(w: string, ws: seq<string>)
    requires IsRegexWord(w)
    requires forall k | 0 <= k < |ws| :: IsRegexWord(ws[k])
    ensures RemoveConsecutiveDuplicates(SkipRepeats(w, Rest(ws))) == Rest(HeadsAfter(Lower(w), ws))
    decreases |ws|
  {
    if ws != [] {
      var v, vs := ws[0], ws[1..];
      var tail := Rest(vs);
      JoinFirst(ws);
      RestStartsWithGap(vs);
      SkipRepeatsStep(w, v, tail);
      if Lower(v) == Lower(w) {
        RcdSkipFrom(w, vs);
        assert HeadsAfter(Lower(w), ws) == HeadsAfter(Lower(w), vs);
      } else {
        RcdSkipFrom(v, vs);
        var hs := HeadsAfter(Lower(v), vs);
        assert HeadsAfter(Lower(w), ws) == [v] + hs;
        RestCons(v, hs);
        RcdNextWord(v, tail, Rest(hs));
      }
    }
  }

  lemma RestCons(v: string, hs: seq<string>)
    ensures Rest([v] + hs) == " " + (v + Rest(hs))
  {
    JoinFirst([v] + hs);
    assert ([v] + hs)[1..] == hs;
  }

  /** A space and a word that differs from the one before: both are copied and
      the scan goes on skipping the repeats of the new word. */
  lemma RcdNextWord(v: string, tail: string, out: string)
    requires IsRegexWord(v)
    requires tail == [] || !IsWordChar(tail[0])
    requires RemoveConsecutiveDuplicates(SkipRepeats(v, tail)) == out
    ensures RemoveConsecutiveDuplicates(" " + (v + tail)) == " " + (v + out)
  {
    RcdSpace(v + tail);
    RcdAtWord(v, tail);
  }

  /** On words of letters, digits and underscores separated by single spaces,
      `remove_consecutive_duplicates` keeps the first word of every run of
      adjacent words equal ignoring case, in that word's own case, and leaves
      every other word as it is. */
  lemma {:induction false} RemoveConsecutiveDuplicatesWords(ws: seq<string>)
    requires forall k | 0 <= k < |ws| :: IsRegexWord(ws[k])
    ensures RemoveConsecutiveDuplicates(Join(ws, " ")) == Join(RunHeads(ws), " ")
  {
    if ws != [] {
      JoinFirst(ws);
      RestStartsWithGap(ws[1..]);
      RcdAtWord(ws[0], Rest(ws[1..]));
      RcdSkipFrom(ws[0], ws[1..]);
      JoinFirst(RunHeads(ws));
      assert RunHeads(ws)[1..] == HeadsAfter(Lower(ws[0]), ws[1..]);
    }
  }

  // ------------------------------------------------------------ clean_text

  /** `text.replace("-", " ")`. */
  function Dehyphenate(s: string): (r: string)
    ensures |r| == |s|
    ensures forall i | 0 <= i < |s| :: r[i] == (if s[i] == '-' then ' ' else s[i])
  {
    seq(|s|, i requires 0 <= i < |s| => if s[i] == '-' then ' ' else s[i])
  }

  /** `clean_text`: the seven steps in their fixed order. */
  function CleanText(text: string, replacements: map<string, string>, toRemove: seq<string>, cased: bool): string {
    var dehyphenated := Dehyphenate(text);
    var replaced := ReplacedWords(dehyphenated, replacements);
    var unpunctuated := RemovePunctuation(replaced);
    var replacedAgain := ReplacedWords(unpunctuated, replacements);
    var filtered := RemoveWords(replacedAgain, toRemove);
    var collapsed := RemoveConsecutiveDuplicates(filtered);
    if cased then collapsed else Lower(collapsed)
  }

  lemma {:induction false} SplitNoPunctuation(s: string)
    requires NoPunctuation(s)
    ensures forall k | 0 <= k < |Split(s)| :: NoPunctuation(Split(s)[k])
    decreases |s|
  {
    if s != [] {
      if IsSpace(s[0]) {
        SplitNoPunctuation(s[1..]);
      } else {
        SplitNoPunctuation(s[WordEnd(s)..]);
      }
    }
  }

  lemma {:induction false} JoinNoPunctuation(ws: seq<string>)
    requires forall k | 0 <= k < |ws| :: NoPunctuation(ws[k])
    ensures NoPunctuation(Join(ws, " "))
  {
    if |ws| > 1 {
      JoinNoPunctuation(ws[1..]);
    }
  }

  lemma SuffixNoPunctuation(s: string, n: nat)
    requires NoPunctuation(s) && n <= |s|
    ensures NoPunctuation(s[n..])
  {
    assert forall i | 0 <= i < |s| - n :: s[n..][i] == s[n + i];
  }

  lemma PrefixNoPunctuation(s: string, n: nat)
    requires NoPunctuation(s) && n <= |s|
    ensures NoPunctuation(s[..n])
  {
    assert forall i | 0 <= i < n :: s[..n][i] == s[i];
  }

  lemma StripNoPunctuation(s: string)
    requires NoPunctuation(s)
    ensures NoPunctuation(Strip(s))
  {
    var t := TrimStart(s);
    SuffixNoPunctuation(s, |s| - |t|);
    var r := TrimEnd(t);
    PrefixNoPunctuation(t, |r|);
  }

  lemma {:induction false} ReplacedWordsNoPunctuation(text: string, replacements: map<string, string>)
    requires NoPunctuation(text)
    requires forall key | key in replacements :: NoPunctuation(replacements[key])
    ensures NoPunctuation(ReplacedWords(text, replacements))
  {
    var words := Split(text);
    SplitNoPunctuation(text);
    var out := ReplaceEach(words, replacements);
    forall k | 0 <= k < |out| ensures NoPunctuation(out[k]) {
      assert out[k] == ReplaceWord(words[k], replacements);
      assert NoPunctuation(words[k]);
    }
    JoinNoPunctuation(out);
    StripNoPunctuation(Join(out, " "));
  }

  lemma RemoveWordsNoPunctuation(text: string, toRemove: seq<string>)
    requires NoPunctuation(text)
    ensures NoPunctuation(RemoveWords(text, toRemove))
  {
    var words := Split(text);
    SplitNoPunctuation(text);
    var kept := Kept(words, toRemove);
    forall k | 0 <= k < |kept| ensures NoPunctuation(kept[k]) {
      var j :| 0 <= j < |words| && words[j] == kept[k];
    }
    JoinNoPunctuation(kept);
  }

  lemma RcdNoPunctuation(s: string)
    requires NoPunctuation(s)
    ensures NoPunctuation(RemoveConsecutiveDuplicates(s))
  {
    RemoveConsecutiveDuplicatesChars(s);
    var r := RemoveConsecutiveDuplicates(s);
    forall i | 0 <= i < |r| ensures !IsPunctuation(r[i]) {
      assert r[i] in r;
      var j :| 0 <= j < |s| && s[j] == r[i];
    }
  }

  /** If no replacement value holds punctuation, `clean_text`'s result holds no
      character of `string.punctuation` (hyphens included); uncased, it also
      holds no upper-case letter. */
  lemma CleanTextNoPunctuation(text: string, replacements: map<string, string>, toRemove: seq<string>, cased: bool)
    requires forall key | key in replacements :: NoPunctuation(replacements[key])
    ensures NoPunctuation(CleanText(text, replacements, toRemove, cased))
    ensures !cased ==> forall i | 0 <= i < |CleanText(text, replacements, toRemove, cased)| ::
      !IsUpper(CleanText(text, replacements, toRemove, cased)[i])
  {
    var unpunctuated := RemovePunctuation(ReplacedWords(Dehyphenate(text), replacements));
    var replacedAgain := ReplacedWords(unpunctuated, replacements);
    ReplacedWordsNoPunctuation(unpunctuated, replacements);
    var filtered := RemoveWords(replacedAgain, toRemove);
    RemoveWordsNoPunctuation(replacedAgain, toRemove);
    RcdNoPunctuation(filtered);
  }

  // ------------------------------------------------- a worked example of clean_text

  lemma HeadsAfterCons(key: string, w: string, rest: seq<string>)
    ensures HeadsAfter(key, [w] + rest) == (if Lower(w) == key then [] else [w]) + HeadsAfter(Lower(w), rest)
  {
    assert ([w] + rest)[1..] == rest;
  }

  lemma ExampleRunHeads(i: string, am: string, happy: string)
    requires Lower(i) == i && Lower(am) == am && Lower(happy) == happy && am != i && happy != am
    ensures RunHeads([i, am, happy, happy]) == [i, am, happy]
  {
    HeadsAfterCons(happy, happy, []);
    HeadsAfterCons(am, happy, [happy]);
    HeadsAfterCons(i, am, [happy, happy]);
    assert [i, am, happy, happy][1..] == [am] + [happy, happy];
    assert [happy, happy] == [happy] + [happy];
  }

  lemma ExampleWords(i: string, am: string, happy: string)
    requires i == "i" && am == "am" && happy == "happy"
    ensures IsRegexWord(i) && IsRegexWord(am) && IsRegexWord(happy)
    ensures Lower(i) == i && Lower(am) == am && Lower(happy) == happy && am != i && happy != am
  {
    LowerUnchanged(i);
    LowerUnchanged(am);
    LowerUnchanged(happy);
    assert |am| != |i| && |happy| != |am|;
  }

  /** The first `replace_words` pass of the example: only "I'm" is in the table. */
  lemma ExampleFirstPass(im: string, happy: string, v: string, m: map<string, string>)
    requires im == "I'm" && happy == "happy" && v == "i am" && m == map["i'm" := v]
    ensures ReplacedWords(im + " " + happy + " " + happy, m) == v + " " + happy + " " + happy
  {
    var ws := [im, happy, happy];
    JoinThree(im, happy, happy, " ");
    SplitJoin(ws);
    assert Lower(im) == "i'm";
    assert |Lower(happy)| == 5;
    var out := [v, happy, happy];
    assert ReplaceEach(ws, m) == out;
    ReplacedWordsJoin(im + " " + happy + " " + happy, m);
    JoinThree(v, happy, happy, " ");
  }

  /** The later passes leave "i am happy happy" alone. */
  lemma ExampleLaterPasses(i: string, am: string, happy: string, m: map<string, string>)
    requires i == "i" && am == "am" && happy == "happy" && m == map["i'm" := "i am"]
    ensures var t := i + " " + am + " " + happy + " " + happy;
      && RemovePunctuation(t) == t
      && ReplacedWords(t, m) == t
      && RemoveWords(t, []) == t
  {
    var ws := [i, am, happy, happy];
    var t := i + " " + am + " " + happy + " " + happy;
    JoinFour(i, am, happy, happy);
    assert NoPunctuation(t);
    RemovePunctuationClean(t);
    SplitJoin(ws);
    assert |Lower(i)| == 1 && |Lower(am)| == 2 && |Lower(happy)| == 5;
    assert ReplaceEach(ws, m) == ws;
    ReplacedWordsJoin(t, m);
    KeptAll(ws, []);
  }

  lemma ExampleCollapse(i: string, am: string, happy: string)
    requires i == "i" && am == "am" && happy == "happy"
    ensures RemoveConsecutiveDuplicates(i + " " + am + " " + happy + " " + happy) == i + " " + am + " " + happy
  {
    var ws := [i, am, happy, happy];
    JoinFour(i, am, happy, happy);
    ExampleWords(i, am, happy);
    RemoveConsecutiveDuplicatesWords(ws);
    ExampleRunHeads(i, am, happy);
    JoinThree(i, am, happy, " ");
  }

  /** Two string literals spelled out through variables. */
  lemma SpacedPair(i: string, am: string, v: string)
    requires i == "i" && am == "am" && v == "i am"
    ensures v == i + " " + am
  {
    assert |v| == |i + " " + am|;
  }

  lemma SpacedTriple(i: string, am: string, happy: string, r: string)
    requires i == "i" && am == "am" && happy == "happy" && r == "i am happy"
    ensures r == i + " " + am + " " + happy
  {
    assert |r| == |i + " " + am + " " + happy|;
  }

  /** Cased `clean_text` of "I'm happy happy" with the table {"i'm": "i am"}:
      the replacement is inserted as the table writes it, so the first word
      comes out lower-case, and the repeated "happy" collapses to one. */
  lemma CleanTextExample(text: string)
    requires text == "I'm happy happy"
    ensures CleanText(text, map["i'm" := "i am"], [], true) == "i am happy"
  {
    var im, i, am, happy, v := "I'm", "i", "am", "happy", "i am";
    var m := map["i'm" := v];
    assert text == im + " " + happy + " " + happy;
    assert Dehyphenate(text) == text;
    ExampleFirstPass(im, happy, v, m);
    SpacedPair(i, am, v);
    ExampleLaterPasses(i, am, happy, m);
    ExampleCollapse(i, am, happy);
    SpacedTriple(i, am, happy, "i am happy");
  }
}
