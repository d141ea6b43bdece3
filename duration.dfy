/**
  Duration extraction (`parseTimeEntry`): find the leftmost duration tag
  `[<number><spaces><unit>]` in one line, convert it to minutes and cut the
  tag out of the line.

  The tag is the case-insensitive regular expression
  `\[(\d+(?:\.\d+)?)\s*(hours?|hrs?|h|minutes?|mins?|m)\]`. It is stated twice,
  over positions of the line: declaratively (`IsMatch`: the characters from
  the `[` at `i` to the `]` at `sp.End()` have the shape the expression
  describes) and as a matcher (`MatchAt`) that walks the line the way the
  regular-expression engine does, greedy runs and an alternation tried in order.
  `MatchAtSound` and `MatchAtComplete` show the two agree.
 */
module Duration {
  import opened Wrappers
  import opened Text

  /** The unit words of the alternation `hours?|hrs?|h|minutes?|mins?|m`. */
  datatype UnitWord = Hours | Hour | Hrs | Hr | H | Minutes | Minute | Mins | Min | M

  /** The number of letters of each unit word. */
  function Len(w: UnitWord): (n: nat)
    ensures n >= 1
  {
    match w
    case Hours => 5
    case Hour => 4
    case Hrs => 3
    case Hr => 2
    case H => 1
    case Minutes => 7
    case Minute => 6
    case Mins => 4
    case Min => 3
    case M => 1
  }

  /** The words the conversion treats as hours. */
  predicate CountsHours(w: UnitWord) {
    w == Hours || w == Hour || w == Hrs || w == Hr || w == H
  }

  /** Letter `j` of a unit word: the hour words share their letters with `hours` or `hrs`,
      the minute words with `minutes` or `mins`. `WordSpellings` lists the ten spellings this gives. */
  function Letter(w: UnitWord, j: nat): char
    requires j < Len(w)
  {
    if j == 0 then (if CountsHours(w) then 'h' else 'm')
    else if CountsHours(w) then
      if w == Hrs || w == Hr then (if j == 1 then 'r' else 's')
      else if j == 1 then 'o' else if j == 2 then 'u' else if j == 3 then 'r' else 's'
    else if j == 1 then 'i' else if j == 2 then 'n'
    else if j == 3 then (if w == Mins then 's' else 'u')
    else if j == 4 then 't' else if j == 5 then 'e' else 's'
  }

  /** The letters of `w` from letter `j` on. */
  function Spelling(w: UnitWord, j: nat): (r: string)
    requires j <= Len(w)
    ensures |r| == Len(w) - j
    decreases Len(w) - j
  {
    if j == Len(w) then [] else [Letter(w, j)] + Spelling(w, j + 1)
  }

  /** How a unit word is spelled, in lower case. */
  function Word(w: UnitWord): string {
    Spelling(w, 0)
  }

  lemma {:induction false} SpellingLetters(w: UnitWord, j: nat)
    requires j <= Len(w)
    ensures forall m :: 0 <= m < Len(w) - j ==> Spelling(w, j)[m] == Letter(w, j + m)
    decreases Len(w) - j
  {
    if j < Len(w) {
      SpellingLetters(w, j + 1);
    }
  }

  /** The spelling is letter by letter what `Letter` and `Len` say. */
  lemma WordLetters(w: UnitWord)
    ensures |Word(w)| == Len(w)
    ensures forall j :: 0 <= j < Len(w) ==> Word(w)[j] == Letter(w, j)
  {
    SpellingLetters(w, 0);
  }

  /** The ten spellings. */
  lemma WordSpellings()
    ensures Word(Hours) == "hours" && Word(Hour) == "hour" && Word(Hrs) == "hrs" && Word(Hr) == "hr"
    ensures Word(H) == "h" && Word(M) == "m" && Word(Min) == "min" && Word(Mins) == "mins"
    ensures Word(Minute) == "minute" && Word(Minutes) == "minutes"
  {
  }

  /** Every unit word is lower-case letters. */
  lemma LettersAreLower(w: UnitWord, j: nat)
    requires j < Len(w)
    ensures 'a' <= Letter(w, j) <= 'z'
  {
  }

  /** Different unit words are spelled differently. */
  lemma WordInjective(w1: UnitWord, w2: UnitWord)
    requires Word(w1) == Word(w2)
    ensures w1 == w2
  {
    WordLetters(w1);
    WordLetters(w2);
    assert Word(w1)[0] == Word(w2)[0];
  }

  /** Exactly the unit words that start with `h` count hours. */
  lemma HoursStartWithH(w: UnitWord)
    ensures CountsHours(w) <==> Word(w)[0] == 'h'
  {
    WordLetters(w);
  }

  /** The order in which the alternation `hours?|hrs?|h|minutes?|mins?|m` tries the words. */
  function Alternative(k: nat): UnitWord
    requires k < 10
  {
    if k == 0 then Hours else if k == 1 then Hour else if k == 2 then Hrs
    else if k == 3 then Hr else if k == 4 then H else if k == 5 then Minutes
    else if k == 6 then Minute else if k == 7 then Mins else if k == 8 then Min else M
  }

  /** Each unit word's place in the alternation. */
  function AlternativeIndex(w: UnitWord): (k: nat)
    ensures k < 10 && Alternative(k) == w
  {
    match w
    case Hours => 0
    case Hour => 1
    case Hrs => 2
    case Hr => 3
    case H => 4
    case Minutes => 5
    case Minute => 6
    case Mins => 7
    case Min => 8
    case M => 9
  }

  /** The unit word `w` is written at index `d`, in any mix of cases, and `]` follows it. */
  predicate UnitFits(s: string, d: nat, w: UnitWord) {
    && d + Len(w) < |s|
    && (forall j :: 0 <= j < Len(w) ==> LowerChar(s[d + j]) == Letter(w, j))
    && s[d + Len(w)] == ']'
  }

  /** A unit word that fits begins with a letter: not a digit, not whitespace, not a `.`. */
  lemma {:induction false} UnitStartsWithLetter(s: string, d: nat, w: UnitWord)
    requires UnitFits(s, d, w)
    ensures !IsDigit(s[d]) && !IsSpace(s[d]) && s[d] != '.'
  {
    assert LowerChar(s[d + 0]) == Letter(w, 0);
    LettersAreLower(w, 0);
  }

  /** At most one unit word fits at a given index: a longer word would have a letter where the
      shorter one's `]` stands, and words of the same length differ in their first letter. */
  lemma {:induction false} UnitUnique(s: string, d: nat, w1: UnitWord, w2: UnitWord)
    requires UnitFits(s, d, w1) && UnitFits(s, d, w2)
    ensures w1 == w2
  {
    if Len(w1) < Len(w2) {
      assert LowerChar(s[d + Len(w1)]) == Letter(w2, Len(w1));
      LettersAreLower(w2, Len(w1));
    } else if Len(w2) < Len(w1) {
      assert LowerChar(s[d + Len(w2)]) == Letter(w1, Len(w2));
      LettersAreLower(w1, Len(w2));
    } else {
      assert LowerChar(s[d + 0]) == Letter(w1, 0);
      assert LowerChar(s[d + 0]) == Letter(w2, 0);
    }
  }

  /** The alternation with backtracking: the first unit word, from place `k` of the alternation on,
      that fits at `d`. */
  function FirstUnit(s: string, d: nat, k: nat): Option<UnitWord>
    requires k <= 10
    decreases 10 - k
  {
    if k == 10 then None
    else if UnitFits(s, d, Alternative(k)) then Some(Alternative(k))
    else FirstUnit(s, d, k + 1)
  }

  /** The alternation only picks a word that fits, and fails only when no remaining word fits. */
  lemma {:induction false} FirstUnitSpec(s: string, d: nat, k: nat)
    requires k <= 10
    ensures FirstUnit(s, d, k).Some? ==> UnitFits(s, d, FirstUnit(s, d, k).value)
    ensures FirstUnit(s, d, k).None? ==> forall w :: k <= AlternativeIndex(w) ==> !UnitFits(s, d, w)
    decreases 10 - k
  {
    if k < 10 && !UnitFits(s, d, Alternative(k)) {
      FirstUnitSpec(s, d, k + 1);
    }
  }

  /** The alternation picks the one word that fits. */
  lemma {:induction false} FirstUnitPicks(s: string, d: nat, w: UnitWord)
    requires UnitFits(s, d, w)
    ensures FirstUnit(s, d, 0) == Some(w)
  {
    FirstUnitSpec(s, d, 0);
    UnitUnique(s, d, FirstUnit(s, d, 0).value, w);
  }

  /** A match: the digits run up to `b`, the `.digits` fraction up to `c`, the whitespace up to `d`,
      and the unit word `w` follows; the closing `]` stands at `End()`. */
  datatype Span = Span(b: nat, c: nat, d: nat, w: UnitWord) {
    function End(): nat {
      d + Len(w)
    }
  }

  /** `s[lo..hi]` is all decimal digits. */
  predicate DigitsBetween(s: string, lo: nat, hi: nat) {
    lo <= hi <= |s| && forall j :: lo <= j < hi ==> IsDigit(s[j])
  }

  /** `s[lo..hi]` is all whitespace. */
  predicate SpacesBetween(s: string, lo: nat, hi: nat) {
    lo <= hi <= |s| && forall j :: lo <= j < hi ==> IsSpace(s[j])
  }

  /** `s[b..c]` is the optional group `(?:\.\d+)?`: empty, or a `.` and at least one digit. */
  predicate FractionBetween(s: string, b: nat, c: nat) {
    c == b || (b + 2 <= c <= |s| && s[b] == '.' && DigitsBetween(s, b + 1, c))
  }

  /** The regular expression matches `s` at index `i`, with the pieces that `sp` delimits. */
  predicate IsMatch(s: string, i: nat, sp: Span) {
    && i < |s| && s[i] == '['
    && i + 1 < sp.b && DigitsBetween(s, i + 1, sp.b)
    && sp.b <= sp.c && FractionBetween(s, sp.b, sp.c)
    && sp.c <= sp.d && SpacesBetween(s, sp.c, sp.d)
    && UnitFits(s, sp.d, sp.w)
  }

  /** A match lies inside the line, its closing `]` included. */
  lemma {:induction false} MatchInside(s: string, i: nat, sp: Span)
    requires IsMatch(s, i, sp)
    ensures i + 1 < sp.b <= sp.c <= sp.d < sp.End() < |s| && s[sp.End()] == ']'
  {
  }

  /** Where the optional `\.\d+` after the digits ending at `b` ends: it is taken whole when
      a `.` and at least one digit are there, and skipped otherwise. */
  function FractionEnd(s: string, b: nat): (c: nat)
    requires b <= |s|
    ensures b <= c <= |s|
  {
    if b < |s| && s[b] == '.' && Run(s, b + 1, IsDigit) > 0 then b + 1 + Run(s, b + 1, IsDigit) else b
  }

  lemma {:induction false} FractionEndSpec(s: string, b: nat)
    requires b <= |s|
    ensures FractionBetween(s, b, FractionEnd(s, b))
  {
    if b < |s| && s[b] == '.' {
      RunSpec(s, b + 1, IsDigit);
    }
  }

  /** The match the regular expression finds when it starts at index `i`, if any.
      `\d+`, `\.\d+` and `\s*` are greedy, and giving characters back never helps the match
      (the character after each run cannot start the next piece), so each run is taken whole. */
  function MatchAt(s: string, i: nat): Option<Span> {
    if i < |s| && s[i] == '[' && Run(s, i + 1, IsDigit) > 0 then
      var b := i + 1 + Run(s, i + 1, IsDigit);
      var c := FractionEnd(s, b);
      var d := c + Run(s, c, IsSpace);
      match FirstUnit(s, d, 0)
      case None => None
      case Some(w) => Some(Span(b, c, d, w))
    else None
  }

  /** `MatchAt` once its three runs and its unit word are known. */
  lemma {:induction false} MatchAtUnfold(s: string, i: nat, sp: Span)
    requires i + 1 < sp.b <= |s| && s[i] == '['
    requires Run(s, i + 1, IsDigit) == sp.b - i - 1
    requires FractionEnd(s, sp.b) == sp.c && sp.c + Run(s, sp.c, IsSpace) == sp.d
    requires FirstUnit(s, sp.d, 0) == Some(sp.w)
    ensures MatchAt(s, i) == Some(sp)
  {
  }

  /** Whatever the matcher returns is a match of the regular expression. */
  lemma {:induction false} MatchAtSound(s: string, i: nat)
    ensures MatchAt(s, i).Some? ==> IsMatch(s, i, MatchAt(s, i).value)
  {
    if MatchAt(s, i).Some? {
      var sp := MatchAt(s, i).value;
      assert DigitsBetween(s, i + 1, sp.b) by {
        RunSpec(s, i + 1, IsDigit);
      }
      assert FractionBetween(s, sp.b, sp.c) by {
        FractionEndSpec(s, sp.b);
      }
      assert SpacesBetween(s, sp.c, sp.d) by {
        RunSpec(s, sp.c, IsSpace);
      }
      assert UnitFits(s, sp.d, sp.w) by {
        FirstUnitSpec(s, sp.d, 0);
      }
    }
  }

  /** The character after each piece of a match cannot continue that piece. */
  lemma {:induction false} PiecesStop(s: string, i: nat, sp: Span)
    requires IsMatch(s, i, sp)
    ensures sp.d < |s| && !IsSpace(s[sp.d])
    ensures sp.b < |s| && !IsDigit(s[sp.b])
    ensures sp.c == sp.b ==> s[sp.b] != '.'
    ensures sp.c > sp.b ==> sp.c < |s| && !IsDigit(s[sp.c])
  {
    UnitStartsWithLetter(s, sp.d, sp.w);
    if sp.c < sp.d {
      assert IsSpace(s[sp.c]);
    }
  }

  /** The matcher's three runs end where the pieces of a match end. */
  lemma {:induction false} RunsOfMatch(s: string, i: nat, sp: Span)
    requires IsMatch(s, i, sp)
    ensures Run(s, i + 1, IsDigit) == sp.b - i - 1
    ensures FractionEnd(s, sp.b) == sp.c
    ensures sp.c + Run(s, sp.c, IsSpace) == sp.d
  {
    PiecesStop(s, i, sp);
    RunExact(s, i + 1, IsDigit, sp.b - i - 1);
    if sp.c > sp.b {
      RunExact(s, sp.b + 1, IsDigit, sp.c - sp.b - 1);
    }
    RunExact(s, sp.c, IsSpace, sp.d - sp.c);
  }

  /** The matcher finds every match of the regular expression at `i`; with `MatchAtSound`,
      it matches at `i` exactly when the expression does, and there is only one match at `i`. */
  lemma {:induction false} MatchAtComplete(s: string, i: nat, sp: Span)
    requires IsMatch(s, i, sp)
    ensures MatchAt(s, i) == Some(sp)
  {
    RunsOfMatch(s, i, sp);
    FirstUnitPicks(s, sp.d, sp.w);
    MatchAtUnfold(s, i, sp);
  }

  /** The leftmost index at or after `i` at which the regular expression matches, with its match. */
  function FindFrom(s: string, i: nat): Option<(nat, Span)>
    requires i <= |s|
    decreases |s| - i
  {
    match MatchAt(s, i)
    case Some(sp) => Some((i, sp))
    case None => if i == |s| then None else FindFrom(s, i + 1)
  }

  /** `FindFrom` returns the first index from `i` on where the matcher succeeds, and none
      when it succeeds nowhere from `i` on. */
  lemma {:induction false} FindFromSpec(s: string, i: nat)
    requires i <= |s|
    ensures var r := FindFrom(s, i);
      && (r.Some? ==> i <= r.value.0 <= |s| && MatchAt(s, r.value.0) == Some(r.value.1))
      && (r.Some? ==> forall j :: i <= j < r.value.0 ==> MatchAt(s, j).None?)
      && (r.None? ==> forall j :: i <= j ==> MatchAt(s, j).None?)
    decreases |s| - i
  {
    if MatchAt(s, i).None? {
      if i < |s| {
        FindFromSpec(s, i + 1);
      } else {
        // from `|s|` on there is no `[` to start at
        forall j | i <= j ensures MatchAt(s, j).None? {
        }
      }
    }
  }

  /** `line.match(timeRegex)`: the leftmost match, or none. */
  function FindTag(line: string): Option<(nat, Span)> {
    FindFrom(line, 0)
  }

  /** `FindTag` returns a match of the regular expression, at its leftmost position. */
  lemma {:induction false} FindTagSound(line: string)
    requires FindTag(line).Some?
    ensures var (i, sp) := FindTag(line).value;
      && IsMatch(line, i, sp)
      && forall j: nat, sp': Span :: j < i ==> !IsMatch(line, j, sp')
  {
    FindFromSpec(line, 0);
    var (i, sp) := FindTag(line).value;
    MatchAtSound(line, i);
    forall j: nat, sp': Span | j < i ensures !IsMatch(line, j, sp') {
      if IsMatch(line, j, sp') {
        MatchAtComplete(line, j, sp');
      }
    }
  }

  /** `FindTag` finds the leftmost match of the regular expression. */
  lemma {:induction false} FindTagLeftmost(line: string, i: nat, sp: Span)
    requires IsMatch(line, i, sp)
    requires forall j: nat, sp': Span :: j < i ==> !IsMatch(line, j, sp')
    ensures FindTag(line) == Some((i, sp))
  {
    FindFromSpec(line, 0);
    MatchAtComplete(line, i, sp);
    var (k, sk) := FindTag(line).value;
    MatchAtSound(line, k);
  }

  /** `FindTag` finds nothing exactly when the regular expression matches nowhere. */
  lemma {:induction false} FindTagNoneIff(line: string)
    ensures FindTag(line).None? <==> forall i: nat, sp: Span :: !IsMatch(line, i, sp)
  {
    FindFromSpec(line, 0);
    if FindTag(line).None? {
      forall i: nat, sp: Span | IsMatch(line, i, sp) ensures false {
        MatchAtComplete(line, i, sp);
      }
    } else {
      FindTagSound(line);
    }
  }

  /** The integer value of the decimal digits `s[lo..hi]`. */
  function DigitsValue(s: string, lo: nat, hi: nat): nat
    requires DigitsBetween(s, lo, hi)
    decreases hi - lo
  {
    if hi == lo then 0 else 10 * DigitsValue(s, lo, hi - 1) + (s[hi - 1] as int - '0' as int)
  }

  function Pow10(n: nat): (r: nat)
    ensures r > 0
  {
    if n == 0 then 1 else 10 * Pow10(n - 1)
  }

  /** `n` digits make a number below `10^n`. */
  lemma {:induction false} DigitsValueBelow(s: string, lo: nat, hi: nat)
    requires DigitsBetween(s, lo, hi)
    ensures DigitsValue(s, lo, hi) < Pow10(hi - lo)
    decreases hi - lo
  {
    if hi > lo {
      DigitsValueBelow(s, lo, hi - 1);
    }
  }

  /** `parseFloat(match[1])`, exactly: the integer digits plus the fraction digits scaled down. */
  function MatchValue(s: string, i: nat, sp: Span): real
    requires IsMatch(s, i, sp)
  {
    var whole := DigitsValue(s, i + 1, sp.b) as real;
    if sp.c == sp.b then whole
    else whole + DigitsValue(s, sp.b + 1, sp.c) as real / Pow10(sp.c - sp.b - 1) as real
  }

  lemma FractionBelowOne(x: real, y: real)
    requires 0.0 <= x < y
    ensures 0.0 <= x / y < 1.0
  {
  }

  /** The value is never negative: it lies between its integer digits' value and the next integer. */
  lemma {:induction false} MatchValueBounds(s: string, i: nat, sp: Span)
    requires IsMatch(s, i, sp)
    ensures DigitsValue(s, i + 1, sp.b) as real <= MatchValue(s, i, sp) < DigitsValue(s, i + 1, sp.b) as real + 1.0
    ensures sp.c == sp.b ==> MatchValue(s, i, sp) == DigitsValue(s, i + 1, sp.b) as real
  {
    if sp.c > sp.b {
      DigitsValueBelow(s, sp.b + 1, sp.c);
      FractionBelowOne(DigitsValue(s, sp.b + 1, sp.c) as real, Pow10(sp.c - sp.b - 1) as real);
    }
  }

  /** `match[2]`, lowered, is the spelling of the unit word the match found. */
  lemma {:induction false} MatchUnitLowered(s: string, i: nat, sp: Span)
    requires IsMatch(s, i, sp)
    ensures sp.End() < |s| && Lower(s[sp.d..sp.End()]) == Word(sp.w)
  {
    WordLetters(sp.w);
    var u := Lower(s[sp.d..sp.End()]);
    forall j | 0 <= j < Len(sp.w) ensures u[j] == Word(sp.w)[j] {
      assert s[sp.d..sp.End()][j] == s[sp.d + j];
    }
  }

  /** `match[0]`: the whole matched text, from `[` to `]`. */
  function MatchText(s: string, i: nat, sp: Span): string
    requires IsMatch(s, i, sp)
  {
    s[i..sp.End() + 1]
  }

  /** The conversion of a lower-cased unit: a unit starting with `h` counts hours. */
  function ToMinutes(value: real, unit: string): real {
    if |unit| > 0 && unit[0] == 'h' then value * 60.0 else value
  }

  /** The entry built from one line: minutes, the remaining description, the number and the lower-cased unit. */
  datatype TimeEntry = TimeEntry(time: real, text: string, originalValue: real, originalUnit: string)

  /** The entry for the match `sp` at `i`, once the matched text is taken out of the line, leaving `rest`;
      the unit is `match[2]` lowered, which `MatchUnitLowered` shows is `Word(sp.w)`. */
  function MakeEntry(line: string, i: nat, sp: Span, rest: string): TimeEntry
    requires IsMatch(line, i, sp)
  {
    var value := MatchValue(line, i, sp);
    var unit := Word(sp.w);
    TimeEntry(ToMinutes(value, unit), Trim(rest), value, unit)
  }

  /** `parseTimeEntry(line)`; `None` stands for `null`. */
  function ParseTimeEntry(line: string): Option<TimeEntry> {
    match FindTag(line)
    case None => None
    case Some((i, sp)) =>
      FindTagSound(line);
      Some(MakeEntry(line, i, sp, RemoveFirst(line, MatchText(line, i, sp))))
  }

  /** The entry made from the match `sp` at index `i` of `line`, with exactly that match cut out. */
  function EntryOf(line: string, i: nat, sp: Span): TimeEntry
    requires IsMatch(line, i, sp)
  {
    MakeEntry(line, i, sp, line[..i] + line[sp.End() + 1..])
  }

  /** `parseTimeEntry` yields `null` exactly when the regular expression matches nowhere in the line. */
  lemma {:induction false} ParseNoneIff(line: string)
    ensures ParseTimeEntry(line).None? <==> forall i: nat, sp: Span :: !IsMatch(line, i, sp)
  {
    FindTagNoneIff(line);
  }

  /** `sp`, with every position moved by `k - i`. */
  function Shift(sp: Span, i: nat, k: nat): Span
    requires i <= sp.b <= sp.c <= sp.d
  {
    Span(sp.b - i + k, sp.c - i + k, sp.d - i + k, sp.w)
  }

  /** A unit word that fits at `d` in `s` fits at `dk` in `t` when the characters agree. */
  lemma {:induction false} ShiftUnit(s: string, d: nat, w: UnitWord, t: string, dk: nat)
    requires UnitFits(s, d, w)
    requires dk + Len(w) < |t|
    requires forall j :: d <= j <= d + Len(w) ==> t[j - d + dk] == s[j]
    ensures UnitFits(t, dk, w)
  {
    forall j | 0 <= j < Len(w) ensures LowerChar(t[dk + j]) == Letter(w, j) {
      assert t[(d + j) - d + dk] == s[d + j];
    }
    assert t[(d + Len(w)) - d + dk] == s[d + Len(w)];
  }

  /** Whether the expression matches depends only on the matched text: the same characters
      at index `k` of `t` match there too. */
  lemma {:induction false} ShiftMatch(s: string, i: nat, sp: Span, t: string, k: nat)
    requires IsMatch(s, i, sp)
    requires k + (sp.End() + 1 - i) <= |t|
    requires forall j :: i <= j <= sp.End() ==> t[j - i + k] == s[j]
    ensures IsMatch(t, k, Shift(sp, i, k))
  {
    var sk := Shift(sp, i, k);
    assert t[i - i + k] == s[i];
    forall j | k + 1 <= j < sk.b ensures IsDigit(t[j]) {
      assert t[(j - k + i) - i + k] == s[j - k + i];
    }
    forall j | sk.c <= j < sk.d ensures IsSpace(t[j]) {
      assert t[(j - k + i) - i + k] == s[j - k + i];
    }
    if sp.c > sp.b {
      assert t[sp.b - i + k] == s[sp.b];
      forall j | sk.b + 1 <= j < sk.c ensures IsDigit(t[j]) {
        assert t[(j - k + i) - i + k] == s[j - k + i];
      }
    }
    ShiftUnit(s, sp.d, sp.w, t, sk.d);
  }

  /** Wherever the matched text occurs, the regular expression matches there too. */
  lemma {:induction false} MatchTextMatches(s: string, i: nat, sp: Span, k: nat)
    requires IsMatch(s, i, sp)
    requires OccursAt(s, MatchText(s, i, sp), k)
    ensures IsMatch(s, k, Shift(sp, i, k))
  {
    var R := MatchText(s, i, sp);
    forall j | i <= j <= sp.End() ensures s[j - i + k] == s[j] {
      assert s[j - i + k] == s[k..k + |R|][j - i];
    }
    ShiftMatch(s, i, sp, s, k);
  }

  /** No occurrence of the matched text lies before the leftmost match, so
      `replace(match[0], '')` removes exactly the match. */
  lemma {:induction false} RemoveFirstCutsMatch(line: string, i: nat, sp: Span)
    requires IsMatch(line, i, sp)
    requires forall j: nat, sp': Span :: j < i ==> !IsMatch(line, j, sp')
    ensures sp.End() < |line|
    ensures RemoveFirst(line, MatchText(line, i, sp)) == line[..i] + line[sp.End() + 1..]
  {
    var R := MatchText(line, i, sp);
    IndexOfAtMost(line, R, i);
    var k := IndexOf(line, R).value;
    assert k == i by {
      if k < i {
        MatchTextMatches(line, i, sp, k);
      }
    }
  }

  /** The entry of the match `FindTag` picks is made with exactly that match cut out. */
  lemma {:induction false} ParseFound(line: string, i: nat, sp: Span)
    requires FindTag(line) == Some((i, sp))
    ensures IsMatch(line, i, sp)
    ensures ParseTimeEntry(line) == Some(EntryOf(line, i, sp))
  {
    FindTagSound(line);
    RemoveFirstCutsMatch(line, i, sp);
    assert ParseTimeEntry(line) == Some(MakeEntry(line, i, sp, RemoveFirst(line, MatchText(line, i, sp))));
  }

  /** When the leftmost match is at `i`, the entry is made from it: its number is converted,
      and exactly that occurrence of the matched text is cut out of the line before trimming. */
  lemma {:induction false} ParseLeftmost(line: string, i: nat, sp: Span)
    requires IsMatch(line, i, sp)
    requires forall j: nat, sp': Span :: j < i ==> !IsMatch(line, j, sp')
    ensures ParseTimeEntry(line) == Some(EntryOf(line, i, sp))
  {
    FindTagLeftmost(line, i, sp);
    ParseFound(line, i, sp);
  }

  /** The number and unit of an entry: the value is never negative, the unit is one of the ten words,
      and hours are multiplied by 60 while minutes are kept. */
  lemma {:induction false} MakeEntryConversion(line: string, i: nat, sp: Span, rest: string)
    requires IsMatch(line, i, sp)
    ensures var e := MakeEntry(line, i, sp, rest);
      && e.originalValue >= 0.0
      && e.originalUnit == Word(sp.w)
      && (CountsHours(sp.w) ==> e.time == e.originalValue * 60.0)
      && (!CountsHours(sp.w) ==> e.time == e.originalValue)
  {
    MatchValueBounds(line, i, sp);
    HoursStartWithH(sp.w);
  }

  /** Unit conversion, for whatever entry a line yields. */
  lemma {:induction false} UnitConversion(line: string)
    requires ParseTimeEntry(line).Some?
    ensures var e := ParseTimeEntry(line).value;
      && e.originalValue >= 0.0
      && exists w :: (&& e.originalUnit == Word(w)
                     && (CountsHours(w) ==> e.time == e.originalValue * 60.0)
                     && (!CountsHours(w) ==> e.time == e.originalValue))
  {
    var (i, sp) := FindTag(line).value;
    FindTagSound(line);
    MakeEntryConversion(line, i, sp, RemoveFirst(line, MatchText(line, i, sp)));
  }

  /** The description has no whitespace at either end. */
  lemma TextIsTrimmed(line: string)
    requires ParseTimeEntry(line).Some?
    ensures var text := ParseTimeEntry(line).value.text;
      text == [] || (!IsSpace(text[0]) && !IsSpace(text[|text| - 1]))
  {
    var (i, sp) := FindTag(line).value;
    FindTagSound(line);
    TrimSpec(RemoveFirst(line, MatchText(line, i, sp)));
  }

  /** Every match begins with `[`, so a line without `[` yields `null`. */
  lemma {:induction false} NoBracketNoEntry(line: string)
    requires '[' !in line
    ensures ParseTimeEntry(line).None?
  {
    FindTagNoneIff(line);
  }

  /** Cutting out the match removes nothing else: any later stretch of the line that starts and
      ends with a non-white character, such as a second tag `[...]`, is still in the description.
      With `ParseLeftmost`, this is the description `parseTimeEntry` returns. */
  lemma LaterTextKept(line: string, i: nat, sp: Span, k: nat, h: nat)
    requires IsMatch(line, i, sp)
    requires sp.End() < k < h <= |line| && !IsSpace(line[k]) && !IsSpace(line[h - 1])
    ensures Contains(EntryOf(line, i, sp).text, line[k..h])
  {
    EntryText(line, i, sp);
    CutKeeps(line, i, sp.End(), k, h);
  }

  /** The description of an entry is the line with the match cut out, trimmed. */
  lemma EntryText(line: string, i: nat, sp: Span)
    requires IsMatch(line, i, sp)
    ensures sp.End() < |line|
    ensures EntryOf(line, i, sp).text == Trim(line[..i] + line[sp.End() + 1..])
  {
    MatchInside(line, i, sp);
  }

  /** Cutting `line[i..e + 1]` out and trimming keeps a later stretch `line[k..h]` that starts
      and ends with non-white characters. */
  lemma CutKeeps(line: string, i: nat, e: nat, k: nat, h: nat)
    requires i <= e < k < h <= |line|
    requires !IsSpace(line[k]) && !IsSpace(line[h - 1])
    ensures Contains(Trim(line[..i] + line[e + 1..]), line[k..h])
  {
    var x := line[..i] + line[e + 1..];
    var p := k - (e + 1 - i);
    var q := h - (e + 1 - i);
    forall j | 0 <= j < h - k ensures x[p..q][j] == line[k..h][j] {
      assert x[p + j] == line[k + j];
    }
    assert x[p..q] == line[k..h];
    TrimKeeps(x, p, q);
    ContainsAt(Trim(x), line[k..h], p - TrimmedFront(x));
  }

  // Worked examples.

  /** The tag of "[1.5 hours] Planning": digits `1`, fraction `.5`, one space, unit `hours`. */
  lemma PlanningTag()
    ensures IsMatch("[1.5 hours] Planning", 0, Span(2, 4, 5, Hours))
    ensures MatchValue("[1.5 hours] Planning", 0, Span(2, 4, 5, Hours)) == 1.5
  {
    WordLetters(Hours);
  }

  lemma PlanningRest()
    ensures "[1.5 hours] Planning"[..0] + "[1.5 hours] Planning"[11..] == " Planning"
    ensures Trim(" Planning") == "Planning"
  {
  }

  /** "[1.5 hours] Planning" is 90 minutes of "Planning". */
  lemma PlanningExample()
    ensures ParseTimeEntry("[1.5 hours] Planning") == Some(TimeEntry(90.0, "Planning", 1.5, "hours"))
  {
    PlanningTag();
    ParseLeftmost("[1.5 hours] Planning", 0, Span(2, 4, 5, Hours));
    WordSpellings();
    PlanningRest();
  }

  /** The tag of "[0 mins] Idle": a zero value is accepted. */
  lemma IdleTag()
    ensures IsMatch("[0 mins] Idle", 0, Span(2, 2, 3, Mins))
    ensures MatchValue("[0 mins] Idle", 0, Span(2, 2, 3, Mins)) == 0.0
  {
    WordLetters(Mins);
  }

  lemma IdleRest()
    ensures "[0 mins] Idle"[..0] + "[0 mins] Idle"[8..] == " Idle"
    ensures Trim(" Idle") == "Idle"
  {
  }

  /** "[0 mins] Idle" is an entry of zero minutes. */
  lemma IdleExample()
    ensures ParseTimeEntry("[0 mins] Idle") == Some(TimeEntry(0.0, "Idle", 0.0, "mins"))
  {
    IdleTag();
    ParseLeftmost("[0 mins] Idle", 0, Span(2, 2, 3, Mins));
    WordSpellings();
    IdleRest();
  }

  /** A line without a tag, such as "Planning session", yields `null`. */
  lemma UntaggedExample()
    ensures ParseTimeEntry("Planning session").None?
  {
    NoBracketNoEntry("Planning session");
  }
}
