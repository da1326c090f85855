/**
 * MuseumObjectDateComparator::getYear: turns a free-text date into a signed
 * year. Each of the six regular expressions of the source is a small
 * recogniser: MatchAt states whether the pattern matches at a start position
 * (with the digit group as long as the rest of the pattern allows), and
 * Search finds the leftmost such position, as std::regex_search does.
 *
 * A std::string is a string of bytes, and std::regex over char matches it
 * byte by byte. Each character of the texts below stands for one byte
 * (code points 0 to 255): a UTF-8 "º" is the two characters \U{C2} \U{BA},
 * an en dash the three characters \U{E2} \U{80} \U{93}.
 */
module DateParser {
  import opened Wrappers

  /** The error getYear throws (std::invalid_argument). */
  datatype DateError = UnparsableDate

  /** The six patterns, in the order getYear tries them. */
  datatype Rule =
    | Century      // (\d+)..[S]+[CcPp], S the bytes of IsSeparator   e.g. "15th century"
    | Millennium   // (\d+).. +[Mm]          e.g. "3rd millennium"
    | NumberEra    // (\d+) (B.C.|A.D.)      e.g. "514 B.C."
    | EraNumber    // (B.C.|A.D.) (\d+)      e.g. "A.D. 25"
    | PlainYear    // (\d{3,4})
    | AnyDigits    // (\d+)

  /** A match: the start of the whole match and the span of its digit group. */
  datatype Match = Match(at: nat, group: nat, len: nat)

  /** `\d`: an ASCII decimal digit. */
  predicate IsDigit(c: char) {
    '0' <= c <= '9'
  }

  /** The regular-expression `.`: any byte but a line terminator. */
  predicate IsAny(c: char) {
    c != '\n' && c != '\r'
  }

  /**
   * The bracket class of the century pattern, byte by byte. The source file
   * holds the en dash in a doubly encoded form, so the class is the space,
   * the hyphen and the seven bytes C3 A2, E2 82 AC, E2 80 9C of that form,
   * each on its own; a real en dash (E2 80 93) is not a run of separators.
   */
  predicate IsSeparator(c: char) {
    c == ' ' || c == '-' ||
    c == '\U{C3}' || c == '\U{A2}' || c == '\U{E2}' || c == '\U{82}' ||
    c == '\U{AC}' || c == '\U{80}' || c == '\U{9C}'
  }

  predicate HasDigit(s: string) {
    exists k :: 0 <= k < |s| && IsDigit(s[k])
  }

  /** The length of the run of digits that starts at i. */
  function DigitRun(s: string, i: nat): (n: nat)
    requires i <= |s|
    ensures i + n <= |s|
    ensures forall k :: i <= k < i + n ==> IsDigit(s[k])
    ensures i + n == |s| || !IsDigit(s[i + n])
    decreases |s| - i
  {
    if i < |s| && IsDigit(s[i]) then 1 + DigitRun(s, i + 1) else 0
  }

  function DigitValue(c: char): (v: nat)
    requires IsDigit(c)
    ensures v <= 9
  {
    c as int - '0' as int
  }

  /** stoi on a string of decimal digits. */
  function Decimal(d: string): nat
    requires forall k :: 0 <= k < |d| ==> IsDigit(d[k])
  {
    if |d| == 0 then 0 else 10 * Decimal(d[..|d| - 1]) + DigitValue(d[|d| - 1])
  }

  /** One or more bytes of IsSeparator, then C, c, P or p, match at j. */
  predicate SeparatorsThenCentury(s: string, j: nat)
    decreases |s| - j
  {
    j + 1 < |s| && IsSeparator(s[j]) &&
    (s[j + 1] in "CcPp" || SeparatorsThenCentury(s, j + 1))
  }

  /** ` +[Mm]` matches at j. */
  predicate SpacesThenMillennium(s: string, j: nat)
    decreases |s| - j
  {
    j + 1 < |s| && s[j] == ' ' &&
    (s[j + 1] in "Mm" || SpacesThenMillennium(s, j + 1))
  }

  /** (B.C.|A.D.) matches at j; the dots are the regular-expression wildcard. */
  predicate EraAt(s: string, j: nat) {
    j + 4 <= |s| && IsAny(s[j + 1]) && IsAny(s[j + 3]) &&
    ((s[j] == 'B' && s[j + 2] == 'C') || (s[j] == 'A' && s[j + 2] == 'D'))
  }

  /** The part of a digits-first pattern after its digit group matches at j. */
  predicate TailAt(rule: Rule, s: string, j: nat)
    requires rule.Century? || rule.Millennium? || rule.NumberEra?
  {
    match rule
    case Century => j + 2 <= |s| && IsAny(s[j]) && IsAny(s[j + 1]) && SeparatorsThenCentury(s, j + 2)
    case Millennium => j + 2 <= |s| && IsAny(s[j]) && IsAny(s[j + 1]) && SpacesThenMillennium(s, j + 2)
    case NumberEra => j < |s| && s[j] == ' ' && EraAt(s, j + 1)
  }

  /**
   * The greedy digit group of a digits-first pattern at i: the longest
   * length, at most k, after which the rest of the pattern matches.
   */
  function Greedy(rule: Rule, s: string, i: nat, k: nat): (r: Option<nat>)
    requires rule.Century? || rule.Millennium? || rule.NumberEra?
    requires i + k <= |s|
    ensures r.Some? ==> 1 <= r.value <= k && TailAt(rule, s, i + r.value)
    ensures forall j :: i < j <= i + k && (r.None? || i + r.value < j) ==> !TailAt(rule, s, j)
  {
    if k == 0 then None
    else if TailAt(rule, s, i + k) then Some(k)
    else Greedy(rule, s, i, k - 1)
  }

  /** A digits-first pattern (century, millennium, "N B.C.") at i, with its greedy digit group. */
  function DigitsFirstAt(rule: Rule, s: string, i: nat): (r: Option<Match>)
    requires rule.Century? || rule.Millennium? || rule.NumberEra?
    requires i <= |s|
    ensures r.Some? ==> r.value.at == i == r.value.group && 1 <= r.value.len && i + r.value.len <= |s|
    ensures r.Some? ==> forall k :: i <= k < i + r.value.len ==> IsDigit(s[k])
  {
    var g := Greedy(rule, s, i, DigitRun(s, i));
    if g.Some? then Some(Match(i, i, g.value)) else None
  }

  /** (B.C.|A.D.) (\d+) at i: the digit group is the whole run after the space. */
  function EraFirstAt(s: string, i: nat): (r: Option<Match>)
    requires i <= |s|
    ensures r.Some? ==> r.value.at == i && r.value.group == i + 5 && 1 <= r.value.len && i + 5 + r.value.len <= |s|
    ensures r.Some? ==> forall k :: i + 5 <= k < i + 5 + r.value.len ==> IsDigit(s[k])
  {
    if EraAt(s, i) && i + 4 < |s| && s[i + 4] == ' ' && DigitRun(s, i + 5) >= 1
    then Some(Match(i, i + 5, DigitRun(s, i + 5))) else None
  }

  /** (\d{3,4}) at i: three digits at least, four at most. */
  function PlainYearAt(s: string, i: nat): (r: Option<Match>)
    requires i <= |s|
    ensures r.Some? ==> r.value.at == i == r.value.group && 3 <= r.value.len <= 4 && i + r.value.len <= |s|
    ensures r.Some? ==> forall k :: i <= k < i + r.value.len ==> IsDigit(s[k])
  {
    var n := DigitRun(s, i);
    if n >= 3 then Some(Match(i, i, if n > 4 then 4 else n)) else None
  }

  /** (\d+) at i: the whole run of digits. */
  function AnyDigitsAt(s: string, i: nat): (r: Option<Match>)
    requires i <= |s|
    ensures r.Some? ==> r.value.at == i == r.value.group && 1 <= r.value.len && i + r.value.len <= |s|
    ensures r.Some? ==> forall k :: i <= k < i + r.value.len ==> IsDigit(s[k])
  {
    var n := DigitRun(s, i);
    if n >= 1 then Some(Match(i, i, n)) else None
  }

  /** Whether `rule` matches with its whole match starting at i, and where its digit group is. */
  function MatchAt(rule: Rule, s: string, i: nat): (r: Option<Match>)
    requires i <= |s|
    ensures r.Some? ==> r.value.at == i && 1 <= r.value.len && r.value.group + r.value.len <= |s|
    ensures r.Some? ==> r.value.group == if rule.EraNumber? then i + 5 else i
    ensures r.Some? ==> forall k :: r.value.group <= k < r.value.group + r.value.len ==> IsDigit(s[k])
  {
    match rule
    case Century | Millennium | NumberEra => DigitsFirstAt(rule, s, i)
    case EraNumber => EraFirstAt(s, i)
    case PlainYear => PlainYearAt(s, i)
    case AnyDigits => AnyDigitsAt(s, i)
  }

  /** The outcome of `rule` at every start position 0 .. |s|. */
  function Outcomes(rule: Rule, s: string): (ms: seq<Option<Match>>)
    ensures |ms| == |s| + 1
    ensures forall j :: 0 <= j <= |s| ==> ms[j] == MatchAt(rule, s, j)
  {
    seq(|s| + 1, j requires 0 <= j <= |s| => MatchAt(rule, s, j))
  }

  /** The first index at or after `from` holding a match, or |ms| if there is none. */
  function FirstSome(ms: seq<Option<Match>>, from: nat): (k: nat)
    requires from <= |ms|
    ensures from <= k <= |ms|
    ensures k < |ms| ==> ms[k].Some?
    decreases |ms| - from
  {
    if from == |ms| then from
    else if ms[from].Some? then from
    else FirstSome(ms, from + 1)
  }

  lemma {:induction false} FirstSomeIsFirst(ms: seq<Option<Match>>, from: nat)
    requires from <= |ms|
    ensures forall j :: from <= j < FirstSome(ms, from) ==> ms[j].None?
    decreases |ms| - from
  {
    if from < |ms| && ms[from].None? {
      FirstSomeIsFirst(ms, from + 1);
    }
  }

  lemma {:induction false} FirstSomeSkips(ms: seq<Option<Match>>, from: nat, i: nat)
    requires from <= i <= |ms|
    requires forall j :: from <= j < i ==> ms[j].None?
    ensures FirstSome(ms, from) == FirstSome(ms, i)
    decreases i - from
  {
    if from < i {
      FirstSomeSkips(ms, from + 1, i);
    }
  }

  /** std::regex_search from position `from`: the match at the leftmost position where `rule` matches. */
  function Search(rule: Rule, s: string, from: nat): (r: Option<Match>)
    requires from <= |s|
    ensures r.Some? ==> from <= r.value.at <= |s| && 1 <= r.value.len && r.value.group + r.value.len <= |s|
    ensures r.Some? ==> forall k :: r.value.group <= k < r.value.group + r.value.len ==> IsDigit(s[k])
  {
    var ms := Outcomes(rule, s);
    var k := FirstSome(ms, from);
    if k < |ms| then ms[k] else None
  }

  /** Search finds the leftmost match, and finds none only when the pattern matches nowhere. */
  lemma SearchIsLeftmost(rule: Rule, s: string, from: nat)
    requires from <= |s|
    ensures var r := Search(rule, s, from);
      && (r.Some? ==> MatchAt(rule, s, r.value.at) == r)
      && (r.Some? ==> forall j :: from <= j < r.value.at ==> MatchAt(rule, s, j).None?)
      && (r.None? ==> forall j :: from <= j <= |s| ==> MatchAt(rule, s, j).None?)
  {
    FirstSomeIsFirst(Outcomes(rule, s), from);
  }

  /** Search skips the positions where the pattern does not match. */
  lemma SearchSkips(rule: Rule, s: string, from: nat, i: nat)
    requires from <= i <= |s|
    requires forall j :: from <= j < i ==> MatchAt(rule, s, j).None?
    ensures Search(rule, s, from) == Search(rule, s, i)
  {
    FirstSomeSkips(Outcomes(rule, s), from, i);
  }

  /** Search fails when the pattern matches at no position from `from` on. */
  lemma SearchFails(rule: Rule, s: string, from: nat)
    requires from <= |s|
    requires forall j :: from <= j <= |s| ==> MatchAt(rule, s, j).None?
    ensures Search(rule, s, from) == None
  {
    FirstSomeSkips(Outcomes(rule, s), from, |s| + 1);
  }

  /** Search from i returns the match at i if there is one. */
  lemma SearchHere(rule: Rule, s: string, i: nat)
    requires i <= |s| && MatchAt(rule, s, i).Some?
    ensures Search(rule, s, i) == MatchAt(rule, s, i)
  {
  }

  /** The number held by the digit group of a match (stoi(match[n])). */
  function GroupValue(s: string, m: Match): nat
    requires m.group + m.len <= |s|
    requires forall k :: m.group <= k < m.group + m.len ==> IsDigit(s[k])
  {
    Decimal(s[m.group..m.group + m.len])
  }

  /**
   * The year a rule assigns to the number it captured: the middle of the
   * century or of the millennium, otherwise the number itself.
   */
  function RuleYear(rule: Rule, n: nat): real {
    match rule
    case Century => (n as real - 1.0) * 100.0 + 50.0
    case Millennium => (n as real - 1.0) * 1000.0 + 500.0
    case _ => n as real
  }

  /** s.find(pat) != npos, from position `from` on. */
  predicate OccursAt(s: string, pat: string, j: nat) {
    j + |pat| <= |s| && s[j..j + |pat|] == pat
  }

  /** std::string::find: the first position at or after `from` where pat occurs. */
  function Find(s: string, pat: string, from: nat): (r: Option<nat>)
    ensures r.Some? ==> from <= r.value && OccursAt(s, pat, r.value)
    ensures r.Some? ==> forall j :: from <= j < r.value ==> !OccursAt(s, pat, j)
    ensures r.None? ==> forall j :: from <= j ==> !OccursAt(s, pat, j)
    decreases |s| - from
  {
    if from + |pat| > |s| then None
    else if s[from..from + |pat|] == pat then Some(from)
    else Find(s, pat, from + 1)
  }

  predicate ContainsBC(s: string) {
    Find(s, "B.C.", 0).Some?
  }

  /** The pattern getYear tries after `rule`, if any. */
  function Next(rule: Rule): Option<Rule> {
    match rule
    case Century => Some(Millennium)
    case Millennium => Some(NumberEra)
    case NumberEra => Some(EraNumber)
    case EraNumber => Some(PlainYear)
    case PlainYear => Some(AnyDigits)
    case AnyDigits => None
  }

  /** How many patterns getYear tries after `rule`. */
  function Remaining(rule: Rule): nat {
    match rule
    case Century => 5
    case Millennium => 4
    case NumberEra => 3
    case EraNumber => 2
    case PlainYear => 1
    case AnyDigits => 0
  }

  /** The year of the first pattern, from `rule` on, that matches anywhere in s. */
  function FirstMatch(s: string, rule: Rule): Option<real>
    decreases Remaining(rule)
  {
    var m := Search(rule, s, 0);
    if m.Some? then Some(RuleYear(rule, GroupValue(s, m.value)))
    else match Next(rule)
      case None => None
      case Some(later) => FirstMatch(s, later)
  }

  /** What getYear computes: the first pattern that matches, negated when "B.C." occurs. */
  function ParseYear(s: string): Result<real, DateError> {
    match FirstMatch(s, Century)
    case None => Failure(UnparsableDate)
    case Some(y) => Success(if ContainsBC(s) then -y else y)
  }

  /**
   * getYear, block by block: each later pattern is tried only while no
   * earlier one has matched, and the sign rule runs last.
   */
  method GetYear(s: string) returns (r: Result<real, DateError>)
    ensures r == ParseYear(s)
  {
    var parsed := false;
    var year: real := 0.0;
    var m: Option<Match>;

    m := Search(Century, s, 0);
    if m.Some? {
      year := RuleYear(Century, GroupValue(s, m.value));
      parsed := true;
    }
    assert FirstMatch(s, Century) == if parsed then Some(year) else FirstMatch(s, Millennium);

    if !parsed {
      m := Search(Millennium, s, 0);
      if m.Some? {
        year := RuleYear(Millennium, GroupValue(s, m.value));
        parsed := true;
      }
    }
    assert FirstMatch(s, Century) == if parsed then Some(year) else FirstMatch(s, NumberEra);

    if !parsed {
      m := Search(NumberEra, s, 0);
      if m.Some? {
        year := RuleYear(NumberEra, GroupValue(s, m.value));
        parsed := true;
      }
    }
    assert FirstMatch(s, Century) == if parsed then Some(year) else FirstMatch(s, EraNumber);

    if !parsed {
      m := Search(EraNumber, s, 0);
      if m.Some? {
        year := RuleYear(EraNumber, GroupValue(s, m.value));
        parsed := true;
      }
    }
    assert FirstMatch(s, Century) == if parsed then Some(year) else FirstMatch(s, PlainYear);

    if !parsed {
      m := Search(PlainYear, s, 0);
      if m.Some? {
        year := RuleYear(PlainYear, GroupValue(s, m.value));
        parsed := true;
      }
    }
    assert FirstMatch(s, Century) == if parsed then Some(year) else FirstMatch(s, AnyDigits);

    if !parsed {
      m := Search(AnyDigits, s, 0);
      if m.Some? {
        year := RuleYear(AnyDigits, GroupValue(s, m.value));
        parsed := true;
      }
    }
    assert FirstMatch(s, Century) == if parsed then Some(year) else None;

    if !parsed {
      return Failure(UnparsableDate);
    }

    if Find(s, "B.C.", 0).Some? {
      year := -year;
    }
    return Success(year);
  }


  // ---------------------------------------------------------------------
  // Properties of the recognisers

  /** Every pattern's digit group starts with a digit, so none matches where no digit follows. */
  lemma NoMatchWithoutDigits(rule: Rule, s: string, from: nat)
    requires from <= |s|
    requires forall k :: from <= k < |s| ==> !IsDigit(s[k])
    ensures Search(rule, s, from) == None
  {
    SearchFails(rule, s, from);
  }

  /** The search from 0 fails when the pattern fails before p and no digit occurs from p on. */
  lemma SearchFailsFrom(rule: Rule, s: string, p: nat)
    requires p <= |s|
    requires forall j :: 0 <= j < p ==> MatchAt(rule, s, j).None?
    requires forall k :: p <= k < |s| ==> !IsDigit(s[k])
    ensures Search(rule, s, 0) == None
  {
    SearchSkips(rule, s, 0, p);
    NoMatchWithoutDigits(rule, s, p);
  }

  /** A pattern that matches decides getYear's chain. */
  lemma ChainStops(s: string, rule: Rule)
    requires Search(rule, s, 0).Some?
    ensures FirstMatch(s, rule) == Some(RuleYear(rule, GroupValue(s, Search(rule, s, 0).value)))
  {
  }

  /** A pattern that fails hands the text on to the next one. */
  lemma ChainPasses(s: string, rule: Rule, later: Rule)
    requires Search(rule, s, 0).None? && Next(rule) == Some(later)
    ensures FirstMatch(s, rule) == FirstMatch(s, later)
  {
  }

  /** Where every pattern before `rule` fails, getYear's chain reaches `rule`. */
  lemma {:induction false} ChainReaches(s: string, rule: Rule)
    requires forall r: Rule :: Remaining(r) > Remaining(rule) ==> Search(r, s, 0).None?
    ensures FirstMatch(s, Century) == FirstMatch(s, rule)
    decreases 5 - Remaining(rule)
  {
    match rule
    case Century =>
    case Millennium => ChainPasses(s, Century, Millennium);
    case NumberEra => ChainReaches(s, Millennium); ChainPasses(s, Millennium, NumberEra);
    case EraNumber => ChainReaches(s, NumberEra); ChainPasses(s, NumberEra, EraNumber);
    case PlainYear => ChainReaches(s, EraNumber); ChainPasses(s, EraNumber, PlainYear);
    case AnyDigits => ChainReaches(s, PlainYear); ChainPasses(s, PlainYear, AnyDigits);
  }

  /**
   * Where every pattern before `rule` fails and `rule` finds m, getYear
   * returns the year `rule` assigns to m's number, negated when "B.C." occurs.
   */
  lemma YearOfMatch(s: string, rule: Rule, m: Match, y: real)
    requires forall r: Rule :: Remaining(r) > Remaining(rule) ==> Search(r, s, 0).None?
    requires Search(rule, s, 0) == Some(m)
    requires y == RuleYear(rule, GroupValue(s, m))
    ensures ParseYear(s) == Success(if ContainsBC(s) then -y else y)
  {
    ChainReaches(s, rule);
    ChainStops(s, rule);
  }

  /** If every pattern from `rule` on fails, so does the chain. */
  lemma {:induction false} FirstMatchFails(s: string, rule: Rule)
    requires forall r: Rule :: Search(r, s, 0).None?
    ensures FirstMatch(s, rule) == None
    decreases Remaining(rule)
  {
    match Next(rule)
    case None =>
    case Some(later) => FirstMatchFails(s, later);
  }

  /** When the chain fails, the last pattern (any run of digits) failed too. */
  lemma {:induction false} FailedChainMissedDigits(s: string, rule: Rule)
    requires FirstMatch(s, rule) == None
    ensures Search(AnyDigits, s, 0) == None
    decreases Remaining(rule)
  {
    match Next(rule)
    case None =>
    case Some(later) => FailedChainMissedDigits(s, later);
  }

  /**
   * getYear throws exactly when the text holds no decimal digit: the last
   * pattern matches any digit, and every pattern needs one.
   */
  lemma ParseFailsIffNoDigit(s: string)
    ensures ParseYear(s).Failure? <==> !HasDigit(s)
  {
    if HasDigit(s) {
      var k :| 0 <= k < |s| && IsDigit(s[k]);
      assert MatchAt(AnyDigits, s, k).Some?;
      SearchIsLeftmost(AnyDigits, s, 0);
      if FirstMatch(s, Century) == None {
        FailedChainMissedDigits(s, Century);
        assert false;
      }
    } else {
      forall r: Rule
        ensures Search(r, s, 0).None?
      {
        NoMatchWithoutDigits(r, s, 0);
      }
      FirstMatchFails(s, Century);
    }
  }

  /** A run of n digits from i, followed by a non-digit or the end, is the whole digit run at i. */
  lemma {:induction false} DigitRunFrom(s: string, i: nat, n: nat)
    requires i + n <= |s|
    requires forall k :: i <= k < i + n ==> IsDigit(s[k])
    requires i + n == |s| || !IsDigit(s[i + n])
    ensures DigitRun(s, i) == n
    decreases n
  {
    if n > 0 {
      DigitRunFrom(s, i + 1, n - 1);
    }
  }

  /** No pattern that starts with its digit group matches before the first digit. */
  lemma NoDigitsBefore(rule: Rule, s: string, i: nat)
    requires rule != EraNumber && i <= |s|
    requires forall k :: 0 <= k < i ==> !IsDigit(s[k])
    ensures forall j :: 0 <= j < i ==> MatchAt(rule, s, j).None?
  {
  }

  /**
   * A digits-first pattern whose rest matches after the whole run of digits
   * at i, and which matches nowhere before i, is found at i with that run.
   */
  lemma DigitsFirstFound(rule: Rule, s: string, i: nat, n: nat)
    requires rule.Century? || rule.Millennium? || rule.NumberEra?
    requires 1 <= n && i + n <= |s|
    requires forall j :: 0 <= j < i ==> MatchAt(rule, s, j).None?
    requires forall k :: i <= k < i + n ==> IsDigit(s[k])
    requires i + n == |s| || !IsDigit(s[i + n])
    requires TailAt(rule, s, i + n)
    ensures Search(rule, s, 0) == Some(Match(i, i, n))
  {
    DigitRunFrom(s, i, n);
    assert MatchAt(rule, s, i) == Some(Match(i, i, n));
    SearchSkips(rule, s, 0, i);
  }

  lemma CenturyFound(s: string, i: nat, n: nat)
    requires 1 <= n && i + n + 2 <= |s|
    requires forall j :: 0 <= j < i ==> MatchAt(Century, s, j).None?
    requires forall k :: i <= k < i + n ==> IsDigit(s[k])
    requires !IsDigit(s[i + n]) && IsAny(s[i + n]) && IsAny(s[i + n + 1]) && SeparatorsThenCentury(s, i + n + 2)
    ensures Search(Century, s, 0) == Some(Match(i, i, n))
  {
    assert TailAt(Century, s, i + n);
    DigitsFirstFound(Century, s, i, n);
  }

  lemma MillenniumFound(s: string, i: nat, n: nat)
    requires 1 <= n && i + n + 2 <= |s|
    requires forall j :: 0 <= j < i ==> MatchAt(Millennium, s, j).None?
    requires forall k :: i <= k < i + n ==> IsDigit(s[k])
    requires !IsDigit(s[i + n]) && IsAny(s[i + n]) && IsAny(s[i + n + 1]) && SpacesThenMillennium(s, i + n + 2)
    ensures Search(Millennium, s, 0) == Some(Match(i, i, n))
  {
    assert TailAt(Millennium, s, i + n);
    DigitsFirstFound(Millennium, s, i, n);
  }

  lemma NumberEraFound(s: string, i: nat, n: nat)
    requires 1 <= n && i + n < |s|
    requires forall j :: 0 <= j < i ==> MatchAt(NumberEra, s, j).None?
    requires forall k :: i <= k < i + n ==> IsDigit(s[k])
    requires s[i + n] == ' ' && EraAt(s, i + n + 1)
    ensures Search(NumberEra, s, 0) == Some(Match(i, i, n))
  {
    assert TailAt(NumberEra, s, i + n);
    DigitsFirstFound(NumberEra, s, i, n);
  }

  /**
   * The century rule: the leftmost place where digits N, any two characters,
   * separators, then C, c, P or p occur gives the middle of the N-th
   * century, (N - 1) * 100 + 50, negated when "B.C." occurs. The digits N
   * are the whole run of digits at i.
   */
  lemma CenturyRule(s: string, i: nat, n: nat)
    requires 1 <= n && i + n + 2 <= |s|
    requires forall j :: 0 <= j < i ==> MatchAt(Century, s, j).None?
    requires forall k :: i <= k < i + n ==> IsDigit(s[k])
    requires !IsDigit(s[i + n]) && IsAny(s[i + n]) && IsAny(s[i + n + 1]) && SeparatorsThenCentury(s, i + n + 2)
    ensures var v := (Decimal(s[i..i + n]) as real - 1.0) * 100.0 + 50.0;
      ParseYear(s) == Success(if ContainsBC(s) then -v else v)
  {
    CenturyFound(s, i, n);
    YearOfMatch(s, Century, Match(i, i, n),
      (Decimal(s[i..i + n]) as real - 1.0) * 100.0 + 50.0);
  }

  /** The millennium rule, which applies only where the century rule found nothing. */
  lemma MillenniumRule(s: string, i: nat, n: nat)
    requires Search(Century, s, 0).None?
    requires 1 <= n && i + n + 2 <= |s|
    requires forall j :: 0 <= j < i ==> MatchAt(Millennium, s, j).None?
    requires forall k :: i <= k < i + n ==> IsDigit(s[k])
    requires !IsDigit(s[i + n]) && IsAny(s[i + n]) && IsAny(s[i + n + 1]) && SpacesThenMillennium(s, i + n + 2)
    ensures var v := (Decimal(s[i..i + n]) as real - 1.0) * 1000.0 + 500.0;
      ParseYear(s) == Success(if ContainsBC(s) then -v else v)
  {
    MillenniumFound(s, i, n);
    YearOfMatch(s, Millennium, Match(i, i, n),
      (Decimal(s[i..i + n]) as real - 1.0) * 1000.0 + 500.0);
  }

  /** "B.C." does not occur in a text where no B is followed by a dot. */
  lemma NoMarker(s: string)
    requires forall k :: 0 <= k && k + 1 < |s| && s[k] == 'B' ==> s[k + 1] != '.'
    ensures !ContainsBC(s)
  {
    forall j: nat
      ensures !OccursAt(s, "B.C.", j)
    {
      if j + 4 <= |s| {
        assert s[j..j + 4][0] == s[j] && s[j..j + 4][1] == s[j + 1];
      }
    }
  }

  /** "B.C." does not occur in a text of digits. */
  lemma NoMarkerAmongDigits(s: string)
    requires forall k :: 0 <= k < |s| ==> IsDigit(s[k])
    ensures !ContainsBC(s)
  {
    NoMarker(s);
  }

  /** "B.C." occurs in a text holding it at j. */
  lemma Marker(s: string, j: nat)
    requires j + 4 <= |s| && s[j..j + 4] == "B.C."
    ensures ContainsBC(s)
  {
    assert OccursAt(s, "B.C.", j);
  }

  /** The part after the digit group of the first three patterns needs a character that is not a digit. */
  lemma TailNeedsNonDigit(rule: Rule, s: string, p: nat)
    requires rule.Century? || rule.Millennium? || rule.NumberEra?
    requires TailAt(rule, s, p)
    ensures exists q :: p <= q < |s| && !IsDigit(s[q])
  {
    if rule.NumberEra? {
      assert !IsDigit(s[p]);
    } else {
      assert !IsDigit(s[p + 2]);
    }
  }

  /** The first four patterns need a character that is not a digit at or after their start. */
  lemma MatchNeedsNonDigit(rule: Rule, s: string, i: nat)
    requires i <= |s| && rule != PlainYear && rule != AnyDigits
    requires MatchAt(rule, s, i).Some?
    ensures exists q :: i <= q < |s| && !IsDigit(s[q])
  {
    if rule.EraNumber? {
      assert !IsDigit(s[i]);
    } else {
      var g := Greedy(rule, s, i, DigitRun(s, i));
      TailNeedsNonDigit(rule, s, i + g.value);
    }
  }

  /** On a text of digits only, none of the first four patterns matches. */
  lemma EarlyRulesNeedNonDigit(s: string, r: Rule)
    requires forall k :: 0 <= k < |s| ==> IsDigit(s[k])
    requires r != PlainYear && r != AnyDigits
    ensures Search(r, s, 0) == None
  {
    forall j | 0 <= j <= |s|
      ensures MatchAt(r, s, j).None?
    {
      if MatchAt(r, s, j).Some? {
        MatchNeedsNonDigit(r, s, j);
      }
    }
    SearchFails(r, s, 0);
  }

  /** On a text of digits only, getYear's chain reaches the three-to-four-digit rule. */
  lemma ChainSkipsToPlainYear(s: string)
    requires forall k :: 0 <= k < |s| ==> IsDigit(s[k])
    ensures FirstMatch(s, Century) == FirstMatch(s, PlainYear)
  {
    EarlyRulesNeedNonDigit(s, Century);
    EarlyRulesNeedNonDigit(s, Millennium);
    EarlyRulesNeedNonDigit(s, NumberEra);
    EarlyRulesNeedNonDigit(s, EraNumber);
  }

  /** A run of three or more digits: the three-to-four-digit rule takes its first (at most four) digits. */
  lemma LongDigitRun(s: string)
    requires 3 <= |s| && DigitRun(s, 0) == |s|
    ensures var n := if |s| > 4 then 4 else |s|;
      FirstMatch(s, PlainYear) == Some(Decimal(s[..n]) as real)
  {
    var n := if |s| > 4 then 4 else |s|;
    SearchHere(PlainYear, s, 0);
    assert s[0..n] == s[..n];
  }

  /** A run of one or two digits: only the last rule matches, and takes it whole. */
  lemma ShortDigitRun(s: string)
    requires 1 <= |s| < 3 && DigitRun(s, 0) == |s|
    ensures FirstMatch(s, PlainYear) == Some(Decimal(s) as real)
  {
    forall j | 0 <= j <= |s|
      ensures MatchAt(PlainYear, s, j).None?
    {
    }
    SearchFails(PlainYear, s, 0);
    SearchHere(AnyDigits, s, 0);
    assert s[0..|s|] == s;
  }

  /**
   * A text made of digits only: the first four patterns need a non-digit, so
   * a run of three or more digits yields its first (at most four) digits and a
   * shorter run yields itself.
   */
  lemma AllDigits(s: string)
    requires 1 <= |s|
    requires forall k :: 0 <= k < |s| ==> IsDigit(s[k])
    ensures var n := if |s| > 4 then 4 else |s|;
      ParseYear(s) == Success(if |s| >= 3 then Decimal(s[..n]) as real else Decimal(s) as real)
  {
    ChainSkipsToPlainYear(s);
    DigitRunFrom(s, 0, |s|);
    NoMarkerAmongDigits(s);
    if |s| >= 3 {
      LongDigitRun(s);
    } else {
      ShortDigitRun(s);
    }
  }

  /** stoi reads the digits of a prefix from left to right. */
  lemma DecimalOfPrefix(s: string, n: nat)
    requires 1 <= n <= |s|
    requires forall k :: 0 <= k < n ==> IsDigit(s[k])
    ensures Decimal(s[..n]) == 10 * Decimal(s[..n - 1]) + DigitValue(s[n - 1])
  {
    assert s[..n][..n - 1] == s[..n - 1];
  }

  /** A run of separators needs a separator directly followed by C, c, P or p to end it. */
  lemma {:induction false} NoSeparatorsThenCentury(s: string, j: nat)
    requires forall k :: 0 <= k && k + 1 < |s| && IsSeparator(s[k]) ==> s[k + 1] !in "CcPp"
    ensures !SeparatorsThenCentury(s, j)
    decreases |s| - j
  {
    if j + 1 < |s| && IsSeparator(s[j]) {
      NoSeparatorsThenCentury(s, j + 1);
    }
  }

  /** The century pattern fails when no separator is directly followed by C, c, P or p. */
  lemma NoCenturyTail(s: string)
    requires forall k :: 0 <= k && k + 1 < |s| && IsSeparator(s[k]) ==> s[k + 1] !in "CcPp"
    ensures Search(Century, s, 0).None?
  {
    forall j | 0 <= j <= |s|
      ensures MatchAt(Century, s, j).None?
    {
      forall p | j < p <= j + DigitRun(s, j)
        ensures !TailAt(Century, s, p)
      {
        NoSeparatorsThenCentury(s, p + 2);
      }
    }
    SearchFails(Century, s, 0);
  }

  /** A run of spaces needs a space directly followed by M or m to end it. */
  lemma {:induction false} NoSpacesThenMillennium(s: string, j: nat)
    requires forall k :: 0 <= k && k + 1 < |s| && s[k] == ' ' ==> s[k + 1] !in "Mm"
    ensures !SpacesThenMillennium(s, j)
    decreases |s| - j
  {
    if j + 1 < |s| && s[j] == ' ' {
      NoSpacesThenMillennium(s, j + 1);
    }
  }

  /** The millennium pattern fails when no space is directly followed by M or m. */
  lemma NoMillenniumTail(s: string)
    requires forall k :: 0 <= k && k + 1 < |s| && s[k] == ' ' ==> s[k + 1] !in "Mm"
    ensures Search(Millennium, s, 0).None?
  {
    forall j | 0 <= j <= |s|
      ensures MatchAt(Millennium, s, j).None?
    {
      forall p | j < p <= j + DigitRun(s, j)
        ensures !TailAt(Millennium, s, p)
      {
        NoSpacesThenMillennium(s, p + 2);
      }
    }
    SearchFails(Millennium, s, 0);
  }

  /** The "N B.C." pattern fails when no digit is followed by a space. */
  lemma NoNumberEra(s: string)
    requires forall k :: 0 <= k && k + 1 < |s| && IsDigit(s[k]) ==> s[k + 1] != ' '
    ensures Search(NumberEra, s, 0).None?
  {
    forall j | 0 <= j <= |s|
      ensures MatchAt(NumberEra, s, j).None?
    {
      forall p | j < p <= j + DigitRun(s, j)
        ensures !TailAt(NumberEra, s, p)
      {
        assert IsDigit(s[p - 1]);
      }
    }
    SearchFails(NumberEra, s, 0);
  }

  /** The "B.C. N" pattern fails when no B is followed, two characters on, by C, and no A by D. */
  lemma NoEraNumber(s: string)
    requires forall k :: 0 <= k && k + 2 < |s| ==>
      (s[k] == 'B' ==> s[k + 2] != 'C') && (s[k] == 'A' ==> s[k + 2] != 'D')
    ensures Search(EraNumber, s, 0).None?
  {
    forall j | 0 <= j <= |s|
      ensures MatchAt(EraNumber, s, j).None?
    {
      if j + 4 <= |s| {
        assert !EraAt(s, j);
      }
    }
    SearchFails(EraNumber, s, 0);
  }

  /** A run of three or more digits starts with three digits in a row. */
  lemma LongRunStart(s: string, j: nat)
    requires j <= |s|
    ensures DigitRun(s, j) >= 3 ==> j + 2 < |s| && IsDigit(s[j]) && IsDigit(s[j + 1]) && IsDigit(s[j + 2])
  {
  }

  /** The three-to-four-digit pattern fails when no three digits occur in a row. */
  lemma NoPlainYear(s: string)
    requires forall k :: 0 <= k && k + 2 < |s| ==> !(IsDigit(s[k]) && IsDigit(s[k + 1]) && IsDigit(s[k + 2]))
    ensures Search(PlainYear, s, 0).None?
  {
    forall j | 0 <= j <= |s|
      ensures MatchAt(PlainYear, s, j).None?
    {
      LongRunStart(s, j);
    }
    SearchFails(PlainYear, s, 0);
  }

  /** The "N B.C." rule, where neither the century nor the millennium rule found anything. */
  lemma NumberEraRule(s: string, i: nat, n: nat)
    requires Search(Century, s, 0).None? && Search(Millennium, s, 0).None?
    requires 1 <= n && i + n < |s|
    requires forall j :: 0 <= j < i ==> MatchAt(NumberEra, s, j).None?
    requires forall k :: i <= k < i + n ==> IsDigit(s[k])
    requires s[i + n] == ' ' && EraAt(s, i + n + 1)
    ensures var v := Decimal(s[i..i + n]) as real;
      ParseYear(s) == Success(if ContainsBC(s) then -v else v)
  {
    NumberEraFound(s, i, n);
    YearOfMatch(s, NumberEra, Match(i, i, n),
      Decimal(s[i..i + n]) as real);
  }

  /** "B.C. N" with the whole run of digits after the space, matching nowhere before i, is found at i. */
  lemma EraFirstFound(s: string, i: nat, n: nat)
    requires EraAt(s, i) && 1 <= n && i + 5 + n <= |s| && s[i + 4] == ' '
    requires forall j :: 0 <= j < i ==> MatchAt(EraNumber, s, j).None?
    requires forall k :: i + 5 <= k < i + 5 + n ==> IsDigit(s[k])
    requires i + 5 + n == |s| || !IsDigit(s[i + 5 + n])
    ensures Search(EraNumber, s, 0) == Some(Match(i, i + 5, n))
  {
    DigitRunFrom(s, i + 5, n);
    assert MatchAt(EraNumber, s, i) == Some(Match(i, i + 5, n));
    SearchSkips(EraNumber, s, 0, i);
  }

  /** The "B.C. N" rule, where none of the first three rules found anything. */
  lemma EraNumberRule(s: string, i: nat, n: nat)
    requires Search(Century, s, 0).None? && Search(Millennium, s, 0).None? && Search(NumberEra, s, 0).None?
    requires EraAt(s, i) && 1 <= n && i + 5 + n <= |s| && s[i + 4] == ' '
    requires forall j :: 0 <= j < i ==> MatchAt(EraNumber, s, j).None?
    requires forall k :: i + 5 <= k < i + 5 + n ==> IsDigit(s[k])
    requires i + 5 + n == |s| || !IsDigit(s[i + 5 + n])
    ensures var v := Decimal(s[i + 5..i + 5 + n]) as real;
      ParseYear(s) == Success(if ContainsBC(s) then -v else v)
  {
    EraFirstFound(s, i, n);
    YearOfMatch(s, EraNumber, Match(i, i + 5, n),
      Decimal(s[i + 5..i + 5 + n]) as real);
  }

  lemma PlainYearFound(s: string, i: nat, n: nat)
    requires 3 <= n && i + n <= |s|
    requires forall j :: 0 <= j < i ==> MatchAt(PlainYear, s, j).None?
    requires forall k :: i <= k < i + n ==> IsDigit(s[k])
    requires i + n == |s| || !IsDigit(s[i + n])
    ensures Search(PlainYear, s, 0) == Some(Match(i, i, if n > 4 then 4 else n))
  {
    DigitRunFrom(s, i, n);
    SearchSkips(PlainYear, s, 0, i);
  }

  lemma AnyDigitsFound(s: string, i: nat, n: nat)
    requires 1 <= n && i + n <= |s|
    requires forall k :: 0 <= k < i ==> !IsDigit(s[k])
    requires forall k :: i <= k < i + n ==> IsDigit(s[k])
    requires i + n == |s| || !IsDigit(s[i + n])
    ensures Search(AnyDigits, s, 0) == Some(Match(i, i, n))
  {
    DigitRunFrom(s, i, n);
    NoDigitsBefore(AnyDigits, s, i);
    SearchSkips(AnyDigits, s, 0, i);
  }

  /**
   * The three-to-four-digit rule, where none of the first four rules found
   * anything: the first run of three or more digits gives its first (at
   * most four) digits.
   */
  lemma PlainYearRule(s: string, i: nat, n: nat)
    requires Search(Century, s, 0).None? && Search(Millennium, s, 0).None?
    requires Search(NumberEra, s, 0).None? && Search(EraNumber, s, 0).None?
    requires 3 <= n && i + n <= |s|
    requires forall j :: 0 <= j < i ==> MatchAt(PlainYear, s, j).None?
    requires forall k :: i <= k < i + n ==> IsDigit(s[k])
    requires i + n == |s| || !IsDigit(s[i + n])
    ensures var m := if n > 4 then 4 else n;
      var v := Decimal(s[i..i + m]) as real;
      ParseYear(s) == Success(if ContainsBC(s) then -v else v)
  {
    var m := if n > 4 then 4 else n;
    PlainYearFound(s, i, n);
    YearOfMatch(s, PlainYear, Match(i, i, m),
      Decimal(s[i..i + m]) as real);
  }

  /** The last rule, where none of the others found anything: the first run of digits, whole. */
  lemma AnyDigitsRule(s: string, i: nat, n: nat)
    requires Search(Century, s, 0).None? && Search(Millennium, s, 0).None? && Search(NumberEra, s, 0).None?
    requires Search(EraNumber, s, 0).None? && Search(PlainYear, s, 0).None?
    requires 1 <= n && i + n <= |s|
    requires forall k :: 0 <= k < i ==> !IsDigit(s[k])
    requires forall k :: i <= k < i + n ==> IsDigit(s[k])
    requires i + n == |s| || !IsDigit(s[i + n])
    ensures var v := Decimal(s[i..i + n]) as real;
      ParseYear(s) == Success(if ContainsBC(s) then -v else v)
  {
    AnyDigitsFound(s, i, n);
    YearOfMatch(s, AnyDigits, Match(i, i, n), Decimal(s[i..i + n]) as real);
  }

  // ---------------------------------------------------------------------
  // The examples in the comments of getYear

  // Each example is split in two: what the text shows character by character,
  // then the rule that applies to it.

  lemma FifteenthCenturyText(s: string)
    requires s == "15th century"
    ensures !ContainsBC(s) && Decimal(s[..2]) == 15 && SeparatorsThenCentury(s, 4)
  {
    NoMarker(s);
    DecimalOfPrefix(s, 1);
    DecimalOfPrefix(s, 2);
  }

  lemma FifteenthCentury(s: string)
    requires s == "15th century"
    ensures ParseYear(s) == Success(1450.0)
  {
    FifteenthCenturyText(s);
    assert s[0..2] == s[..2];
    CenturyRule(s, 0, 2);
  }

  lemma TenthCenturyText(s: string)
    requires s == "10th-century"
    ensures !ContainsBC(s) && Decimal(s[..2]) == 10 && SeparatorsThenCentury(s, 4)
  {
    NoMarker(s);
    DecimalOfPrefix(s, 1);
    DecimalOfPrefix(s, 2);
  }

  /** A hyphen is one of the separators. */
  lemma TenthCentury(s: string)
    requires s == "10th-century"
    ensures ParseYear(s) == Success(950.0)
  {
    TenthCenturyText(s);
    assert s[0..2] == s[..2];
    CenturyRule(s, 0, 2);
  }

  lemma EleventhCenturyText(s: string)
    requires s == "11th c."
    ensures !ContainsBC(s) && Decimal(s[..2]) == 11 && SeparatorsThenCentury(s, 4)
  {
    NoMarker(s);
    DecimalOfPrefix(s, 1);
    DecimalOfPrefix(s, 2);
  }

  lemma EleventhCentury(s: string)
    requires s == "11th c."
    ensures ParseYear(s) == Success(1050.0)
  {
    EleventhCenturyText(s);
    assert s[0..2] == s[..2];
    CenturyRule(s, 0, 2);
  }

  lemma OpenRangeText(s: string)
    requires s == "1800 - present"
    ensures !ContainsBC(s) && SeparatorsThenCentury(s, 6)
  {
    NoMarker(s);
  }

  lemma OpenRangeDigits(s: string)
    requires |s| >= 4 && s[..4] == "1800"
    ensures Decimal(s[..4]) == 1800
  {
    DecimalOfPrefix(s, 1);
    DecimalOfPrefix(s, 2);
    DecimalOfPrefix(s, 3);
    DecimalOfPrefix(s, 4);
  }

  /** The century rule tests the characters after any digits, not an ordinal suffix: an open range reads as a century. */
  lemma OpenRange(s: string)
    requires s == "1800 - present"
    ensures ParseYear(s) == Success(179950.0)
  {
    OpenRangeText(s);
    OpenRangeDigits(s);
    assert s[0..4] == s[..4];
    CenturyRule(s, 0, 4);
  }

  lemma ThirdMillenniumText(s: string)
    requires s == "3rd millennium"
    ensures !ContainsBC(s) && Decimal(s[..1]) == 3 && SpacesThenMillennium(s, 3)
  {
    NoMarker(s);
    DecimalOfPrefix(s, 1);
  }

  lemma ThirdMillenniumEarlierRuleFails(s: string)
    requires s == "3rd millennium"
    ensures Search(Century, s, 0).None?
  {
    NoCenturyTail(s);
  }

  lemma ThirdMillennium(s: string)
    requires s == "3rd millennium"
    ensures ParseYear(s) == Success(2500.0)
  {
    ThirdMillenniumText(s);
    ThirdMillenniumEarlierRuleFails(s);
    assert s[0..1] == s[..1];
    MillenniumRule(s, 0, 1);
  }

  lemma YearBCText(s: string)
    requires s == "514 B.C."
    ensures ContainsBC(s) && Decimal(s[..3]) == 514
  {
    Marker(s, 4);
    DecimalOfPrefix(s, 1);
    DecimalOfPrefix(s, 2);
    DecimalOfPrefix(s, 3);
  }

  lemma YearBCEarlierRulesFail(s: string)
    requires s == "514 B.C."
    ensures Search(Century, s, 0).None? && Search(Millennium, s, 0).None?
  {
    NoCenturyTail(s);
    NoMillenniumTail(s);
  }

  lemma YearBC(s: string)
    requires s == "514 B.C."
    ensures ParseYear(s) == Success(-514.0)
  {
    YearBCText(s);
    YearBCEarlierRulesFail(s);
    assert s[0..3] == s[..3];
    NumberEraRule(s, 0, 3);
  }

  lemma WildcardEraText(s: string)
    requires s == "514 BxCx"
    ensures !ContainsBC(s) && Decimal(s[..3]) == 514
  {
    NoMarker(s);
    DecimalOfPrefix(s, 1);
    DecimalOfPrefix(s, 2);
    DecimalOfPrefix(s, 3);
  }

  lemma WildcardEra(s: string)
    requires s == "514 BxCx"
    ensures ParseYear(s) == Success(514.0)
  {
    WildcardEraText(s);
    NoCenturyTail(s);
    NoMillenniumTail(s);
    assert s[0..3] == s[..3];
    NumberEraRule(s, 0, 3);
  }

  lemma EarlyFourteenthPeriodText(s: string)
    requires s == "early 14th period"
    ensures !ContainsBC(s) && Decimal(s[6..8]) == 14 && SeparatorsThenCentury(s, 10)
  {
    NoMarker(s);
    var d := s[6..8];
    DecimalOfPrefix(d, 1);
    DecimalOfPrefix(d, 2);
    assert d[..2] == d;
  }

  /** The century rule applies wherever its digits start, not only at the front. */
  lemma EarlyFourteenthPeriod(s: string)
    requires s == "early 14th period"
    ensures ParseYear(s) == Success(1350.0)
  {
    EarlyFourteenthPeriodText(s);
    NoDigitsBefore(Century, s, 6);
    CenturyRule(s, 6, 2);
  }

  /** When the rest of the century pattern fails after the whole run, the digit group gives digits back. */
  lemma ShortCenturyGroup(s: string)
    requires s == "123 c."
    ensures ParseYear(s) == Success(50.0)
  {
    NoMarker(s);
    assert !TailAt(Century, s, 3) && !TailAt(Century, s, 2) && TailAt(Century, s, 1);
    DigitRunFrom(s, 0, 3);
    assert MatchAt(Century, s, 0) == Some(Match(0, 0, 1));
    SearchHere(Century, s, 0);
    DecimalOfPrefix(s, 1);
    assert s[0..1] == s[..1];
  }

  // Texts holding bytes outside ASCII, written one character per byte.

  /** "2º c." in UTF-8: the two bytes of "º" fill the pattern's two wildcards. */
  lemma OrdinalIndicator(s: string)
    requires s == "2\U{C2}\U{BA} c."
    ensures ParseYear(s) == Success(150.0)
  {
    NoMarker(s);
    DecimalOfPrefix(s, 1);
    assert s[0..1] == s[..1];
    CenturyRule(s, 0, 1);
  }

  lemma EnDashCenturyText(s: string)
    requires s == "10th\U{E2}\U{80}\U{93}century"
    ensures !ContainsBC(s) && Decimal(s[..2]) == 10
  {
    NoMarker(s);
    DecimalOfPrefix(s, 1);
    DecimalOfPrefix(s, 2);
  }

  lemma EnDashCenturyTailsFail(s: string)
    requires s == "10th\U{E2}\U{80}\U{93}century"
    ensures Search(Century, s, 0).None? && Search(Millennium, s, 0).None? && Search(NumberEra, s, 0).None?
  {
    NoCenturyTail(s);
    NoMillenniumTail(s);
    NoNumberEra(s);
  }

  lemma EnDashCenturyYearsFail(s: string)
    requires s == "10th\U{E2}\U{80}\U{93}century"
    ensures Search(EraNumber, s, 0).None? && Search(PlainYear, s, 0).None?
  {
    NoEraNumber(s);
    NoPlainYear(s);
  }

  /** "10th–century" with a real en dash, which the century pattern's class does not hold. */
  lemma EnDashCentury(s: string)
    requires s == "10th\U{E2}\U{80}\U{93}century"
    ensures ParseYear(s) == Success(10.0)
  {
    EnDashCenturyText(s);
    EnDashCenturyTailsFail(s);
    EnDashCenturyYearsFail(s);
    assert s[0..2] == s[..2];
    AnyDigitsRule(s, 0, 2);
  }

  lemma EnDashRangeTailsFail(s: string)
    requires s == "1800\U{E2}\U{80}\U{93}present"
    ensures Search(Century, s, 0).None? && Search(Millennium, s, 0).None?
  {
    NoCenturyTail(s);
    NoMillenniumTail(s);
  }

  lemma EnDashRangeErasFail(s: string)
    requires s == "1800\U{E2}\U{80}\U{93}present"
    ensures Search(NumberEra, s, 0).None? && Search(EraNumber, s, 0).None?
  {
    NoNumberEra(s);
    NoEraNumber(s);
  }

  /** "1800–present" with a real en dash: no century, so the four digits are the year. */
  lemma EnDashRange(s: string)
    requires s == "1800\U{E2}\U{80}\U{93}present"
    ensures ParseYear(s) == Success(1800.0)
  {
    NoMarker(s);
    EnDashRangeTailsFail(s);
    EnDashRangeErasFail(s);
    OpenRangeDigits(s);
    assert s[0..4] == s[..4];
    PlainYearRule(s, 0, 4);
  }

  lemma YearADText(s: string)
    requires s == "A.D. 25"
    ensures !ContainsBC(s) && Decimal(s[5..7]) == 25
  {
    NoMarker(s);
    var d := s[5..7];
    DecimalOfPrefix(d, 1);
    DecimalOfPrefix(d, 2);
    assert d[..2] == d;
  }

  lemma YearADEarlierRulesFail(s: string)
    requires s == "A.D. 25"
    ensures Search(Century, s, 0).None? && Search(Millennium, s, 0).None? && Search(NumberEra, s, 0).None?
  {
    NoCenturyTail(s);
    NoMillenniumTail(s);
    NoNumberEra(s);
  }

  lemma YearAD(s: string)
    requires s == "A.D. 25"
    ensures ParseYear(s) == Success(25.0)
  {
    YearADText(s);
    YearADEarlierRulesFail(s);
    EraNumberRule(s, 0, 2);
  }

  lemma PlainYear1978Text(s: string)
    requires s == "1978"
    ensures Decimal(s[..4]) == 1978
  {
    DecimalOfPrefix(s, 1);
    DecimalOfPrefix(s, 2);
    DecimalOfPrefix(s, 3);
    DecimalOfPrefix(s, 4);
  }

  /** Four digits are resolved by the three-to-four-digit rule. */
  lemma PlainYear1978(s: string)
    requires s == "1978"
    ensures ParseYear(s) == Success(1978.0)
  {
    PlainYear1978Text(s);
    AllDigits(s);
  }

  lemma LongRunText(s: string)
    requires s == "12345"
    ensures Decimal(s[..4]) == 1234
  {
    DecimalOfPrefix(s, 1);
    DecimalOfPrefix(s, 2);
    DecimalOfPrefix(s, 3);
    DecimalOfPrefix(s, 4);
  }

  /** A longer run yields its first four digits. */
  lemma LongRun(s: string)
    requires s == "12345"
    ensures ParseYear(s) == Success(1234.0)
  {
    LongRunText(s);
    AllDigits(s);
  }

  lemma DateUnknown(s: string)
    requires s == "Date unknown"
    ensures ParseYear(s) == Failure(UnparsableDate)
  {
    forall k | 0 <= k < |s|
      ensures !IsDigit(s[k])
    {
    }
    ParseFailsIffNoDigit(s);
  }
}
