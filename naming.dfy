/**
 * Names built by `update_team_year_index`: the decimal rendering of enum
 * values and years (Python's `'{}'.format(n)` on a non-negative int), the
 * composite event/award key, the counter field names and the document ids.
 * The lemmas show that every family of names is injective and that the
 * families never collide, so a document's fields can be read as a map from
 * field name to value without losing a counter.
 */
module Naming {

  predicate IsDigit(c: char) { '0' <= c <= '9' }

  function Digit(d: nat): (c: char)
    requires d < 10
    ensures IsDigit(c) && DigitValue(c) == d
  {
    (d + 48) as char
  }

  /** The value of a decimal digit. */
  function DigitValue(c: char): nat
    requires IsDigit(c)
  {
    c as int - 48
  }

  /** The number a string of decimal digits stands for, most significant digit first. */
  function DigitsValue(s: string): nat
    requires forall i :: 0 <= i < |s| ==> IsDigit(s[i])
  {
    if s == [] then 0 else DigitsValue(s[..|s| - 1]) * 10 + DigitValue(s[|s| - 1])
  }

  /** Decimal rendering of a natural number, without leading zeros. */
  function Dec(n: nat): (s: string)
    ensures |s| >= 1
    ensures (|s| == 1) == (n < 10)
    ensures forall i :: 0 <= i < |s| ==> IsDigit(s[i])
    ensures s[0] == '0' ==> n == 0
  {
    if n < 10 then [Digit(n)] else Dec(n / 10) + [Digit(n % 10)]
  }

  /** The digits of `Dec(n)` stand for `n`. */
  lemma {:induction false} DecValue(n: nat)
    ensures DigitsValue(Dec(n)) == n
  {
    var s := Dec(n);
    if n >= 10 {
      DecValue(n / 10);
      assert s[..|s| - 1] == Dec(n / 10);
    }
  }

  /** Two numbers with the same rendering are equal. */
  lemma {:induction false} DecInjective(n: nat, m: nat)
    ensures Dec(n) == Dec(m) ==> n == m
  {
    if Dec(n) == Dec(m) && n >= 10 {
      var s := Dec(n);
      assert s == Dec(n / 10) + [Digit(n % 10)];
      assert s == Dec(m / 10) + [Digit(m % 10)];
      assert s[|s| - 1] == Digit(n % 10) == Digit(m % 10);
      assert Dec(n / 10) == s[..|s| - 1] == Dec(m / 10);
      DecInjective(n / 10, m / 10);
    }
  }

  /**
   * The composite counter key of line 109: `'{}_{}'.format(event_type, award_type)`.
   * The underscore is its only non-digit, with the event type's digits
   * before it and the award type's digits after it.
   */
  function CompositeKey(eventType: nat, awardType: nat): (k: string)
    ensures |k| == |Dec(eventType)| + 1 + |Dec(awardType)|
    ensures k[..|Dec(eventType)|] == Dec(eventType) && k[|Dec(eventType)| + 1..] == Dec(awardType)
    ensures forall i :: 0 <= i < |k| ==> (k[i] == '_' <==> i == |Dec(eventType)|)
  {
    Dec(eventType) + "_" + Dec(awardType)
  }

  lemma CompositeKeysDifferAt(e1: nat, a1: nat, e2: nat, a2: nat)
    requires |Dec(e1)| < |Dec(e2)|
    ensures CompositeKey(e1, a1) != CompositeKey(e2, a2)
  {
    var k := |Dec(e1)|;
    assert CompositeKey(e1, a1)[k] == '_';
    assert CompositeKey(e2, a2)[k] == Dec(e2)[k];
  }

  /** The composite key determines both of its parts. */
  lemma CompositeKeyInjective(e1: nat, a1: nat, e2: nat, a2: nat)
    ensures CompositeKey(e1, a1) == CompositeKey(e2, a2) ==> e1 == e2 && a1 == a2
  {
    if |Dec(e1)| < |Dec(e2)| {
      CompositeKeysDifferAt(e1, a1, e2, a2);
    } else if |Dec(e2)| < |Dec(e1)| {
      CompositeKeysDifferAt(e2, a2, e1, a1);
    } else if CompositeKey(e1, a1) == CompositeKey(e2, a2) {
      var k := |Dec(e1)|;
      var s := CompositeKey(e1, a1);
      assert Dec(e1) == s[..k] == Dec(e2);
      assert Dec(a1) == s[k + 1..] == Dec(a2);
      DecInjective(e1, e2);
      DecInjective(a1, a2);
    }
  }

  // Fixed field names (lines 63-65, 69, 82, 98, 130, 145-147)
  const NumberName := "number"
  const NameName := "name"
  const NicknameName := "nickname"
  const LocationName := "location"
  const YearName := "year"
  const EventKeyName := "event_key"
  const BlueBannerName := "bb_count"
  const DivWinName := "divwin_count"
  const CmpWinName := "cmpwin_count"

  /** `'award_{}_count'.format(award_type)` (lines 132, 149, 167). */
  function AwardName(awardType: nat): (n: string)
    ensures |n| == |Dec(awardType)| + 12
    ensures n[..6] == "award_" && n[6..|n| - 6] == Dec(awardType) && n[|n| - 6..] == "_count"
  {
    "award_" + Dec(awardType) + "_count"
  }

  /** `'event_award_{}_count'.format(key)` (lines 135, 152, 170). */
  function EventAwardName(key: string): (n: string)
    ensures |n| == |key| + 18
    ensures n[..12] == "event_award_" && n[12..|n| - 6] == key && n[|n| - 6..] == "_count"
  {
    "event_award_" + key + "_count"
  }

  /** `'event_{}_count'.format(event_type)` (lines 155, 173). */
  function EventTypeName(eventType: nat): (n: string)
    ensures |n| == |Dec(eventType)| + 12
    ensures n[..6] == "event_" && n[6..|n| - 6] == Dec(eventType) && n[|n| - 6..] == "_count"
  {
    "event_" + Dec(eventType) + "_count"
  }

  /** The names that a counter map or a fixed counter produces. */
  ghost predicate IsAwardName(n: string) { exists t :: AwardName(t) == n }
  ghost predicate IsEventAwardName(n: string) { exists k :: EventAwardName(k) == n }
  ghost predicate IsEventTypeName(n: string) { exists e :: EventTypeName(e) == n }

  predicate IsFixedName(n: string)
  {
    n in {NumberName, NameName, NicknameName, LocationName, YearName, EventKeyName,
          BlueBannerName, DivWinName, CmpWinName}
  }

  lemma AwardNameInjective(t1: nat, t2: nat)
    ensures AwardName(t1) == AwardName(t2) ==> t1 == t2
  {
    if AwardName(t1) == AwardName(t2) {
      var s := AwardName(t1);
      assert |Dec(t1)| == |Dec(t2)|;
      assert Dec(t1) == s[6..|s| - 6] == Dec(t2);
      DecInjective(t1, t2);
    }
  }

  lemma EventAwardNameInjective(k1: string, k2: string)
    ensures EventAwardName(k1) == EventAwardName(k2) ==> k1 == k2
  {
    if EventAwardName(k1) == EventAwardName(k2) {
      var s := EventAwardName(k1);
      assert k1 == s[12..|s| - 6] == k2;
    }
  }

  lemma EventTypeNameInjective(e1: nat, e2: nat)
    ensures EventTypeName(e1) == EventTypeName(e2) ==> e1 == e2
  {
    if EventTypeName(e1) == EventTypeName(e2) {
      var s := EventTypeName(e1);
      assert |Dec(e1)| == |Dec(e2)|;
      assert Dec(e1) == s[6..|s| - 6] == Dec(e2);
      DecInjective(e1, e2);
    }
  }

  /** No two families of field names share a name. */
  lemma NameFamiliesDisjoint(t: nat, k: string, e: nat)
    ensures AwardName(t) != EventAwardName(k)
    ensures AwardName(t) != EventTypeName(e)
    ensures EventAwardName(k) != EventTypeName(e)
    ensures !IsFixedName(AwardName(t))
    ensures !IsFixedName(EventAwardName(k))
    ensures !IsFixedName(EventTypeName(e))
  {
    assert AwardName(t)[0] == 'a';
    assert EventAwardName(k)[0] == 'e' && EventAwardName(k)[6] == 'a';
    assert EventTypeName(e)[0] == 'e' && EventTypeName(e)[6] == Dec(e)[0];
    assert |EventTypeName(e)| >= 13 && EventTypeName(e)[|EventTypeName(e)| - 6] == '_';
  }

  /** The counter names a scope document can carry. */
  ghost predicate IsCounterName(n: string)
  {
    n == BlueBannerName || n == DivWinName || n == CmpWinName
    || IsAwardName(n) || IsEventAwardName(n) || IsEventTypeName(n)
  }

  /** The counter names an event document can carry. */
  ghost predicate IsEventCounterName(n: string)
  {
    n == BlueBannerName || IsAwardName(n) || IsEventAwardName(n)
  }

  lemma AllNamesInjective()
    ensures forall t1, t2 :: AwardName(t1) == AwardName(t2) ==> t1 == t2
    ensures forall k1, k2 :: EventAwardName(k1) == EventAwardName(k2) ==> k1 == k2
    ensures forall e1, e2 :: EventTypeName(e1) == EventTypeName(e2) ==> e1 == e2
  {
    forall t1, t2 ensures AwardName(t1) == AwardName(t2) ==> t1 == t2 {
      AwardNameInjective(t1, t2);
    }
    forall k1, k2 ensures EventAwardName(k1) == EventAwardName(k2) ==> k1 == k2 {
      EventAwardNameInjective(k1, k2);
    }
    forall e1, e2 ensures EventTypeName(e1) == EventTypeName(e2) ==> e1 == e2 {
      EventTypeNameInjective(e1, e2);
    }
  }

  /** A name belongs to at most one family, and fixed names to none. */
  lemma NameKind(n: string)
    ensures IsFixedName(n) ==> !IsAwardName(n) && !IsEventAwardName(n) && !IsEventTypeName(n)
    ensures IsAwardName(n) ==> !IsEventAwardName(n) && !IsEventTypeName(n)
    ensures IsEventAwardName(n) ==> !IsEventTypeName(n)
  {
    if IsAwardName(n) {
      var t :| AwardName(t) == n;
      forall k ensures EventAwardName(k) != n { NameFamiliesDisjoint(t, k, 0); }
      forall e ensures EventTypeName(e) != n { NameFamiliesDisjoint(t, "", e); }
      NameFamiliesDisjoint(t, "", 0);
    }
    if IsEventAwardName(n) {
      var k :| EventAwardName(k) == n;
      forall e ensures EventTypeName(e) != n { NameFamiliesDisjoint(0, k, e); }
      NameFamiliesDisjoint(0, k, 0);
    }
    if IsEventTypeName(n) {
      var e :| EventTypeName(e) == n;
      NameFamiliesDisjoint(0, "", e);
    }
  }

  /** The names of the fields every document starts with (lines 63-72). */
  predicate IsBaseName(n: string)
  {
    n == NumberName || n == NameName || n == NicknameName || n == LocationName
  }

  /** The other fixed names are not among them. */
  lemma OtherFixedNamesNotBase()
    ensures !IsBaseName(YearName) && !IsBaseName(EventKeyName)
    ensures !IsBaseName(DivWinName) && !IsBaseName(CmpWinName) && !IsBaseName(BlueBannerName)
  {
    assert YearName[0] == 'y' && NameName[0] == 'n';
  }

  /** The fields every document starts with, and `year` and `event_key`, are not counters. */
  lemma HeadNamesNotCounters()
    ensures forall n :: IsBaseName(n) ==> !IsCounterName(n)
    ensures !IsCounterName(YearName) && !IsCounterName(EventKeyName)
  {
    NameKind(NumberName);
    NameKind(NameName);
    NameKind(NicknameName);
    NameKind(LocationName);
    NameKind(YearName);
    NameKind(EventKeyName);
  }

  /** Win counters are scope counters but not event counters. */
  lemma WinNamesNotEventCounters()
    ensures !IsEventCounterName(DivWinName) && !IsEventCounterName(CmpWinName)
  {
    NameKind(DivWinName);
    NameKind(CmpWinName);
  }

  /** Event-type counters are scope counters but not event counters. */
  lemma EventTypeNotEventCounter(eventType: nat)
    ensures !IsEventCounterName(EventTypeName(eventType))
    ensures !IsBaseName(EventTypeName(eventType))
    ensures EventTypeName(eventType) != YearName && EventTypeName(eventType) != EventKeyName
  {
    var n := EventTypeName(eventType);
    NameKind(n);
    NameFamiliesDisjoint(0, "", eventType);
  }

  /** Document ids (lines 141, 160, 178). */
  function EventDocId(teamKey: string, eventKey: string): (id: string)
    ensures |id| == |teamKey| + 1 + |eventKey|
    ensures id[..|teamKey|] == teamKey && id[|teamKey|] == '_' && id[|teamKey| + 1..] == eventKey
  {
    teamKey + "_" + eventKey
  }

  function YearDocId(teamKey: string, year: nat): (id: string)
    ensures |id| == |teamKey| + 1 + |Dec(year)|
    ensures id[..|teamKey|] == teamKey && id[|teamKey|] == '_' && id[|teamKey| + 1..] == Dec(year)
  {
    teamKey + "_" + Dec(year)
  }

  /** The overall document's id is the team key itself. */
  function OverallDocId(teamKey: string): (id: string)
    ensures id == teamKey
  {
    teamKey
  }

  /** For one team, distinct events get distinct event document ids. */
  lemma EventDocIdInjective(teamKey: string, k1: string, k2: string)
    ensures EventDocId(teamKey, k1) == EventDocId(teamKey, k2) ==> k1 == k2
  {
    if EventDocId(teamKey, k1) == EventDocId(teamKey, k2) {
      var s := EventDocId(teamKey, k1);
      assert k1 == s[|teamKey| + 1..] == k2;
    }
  }

  /** For one team, distinct years get distinct year document ids. */
  lemma YearDocIdInjective(teamKey: string, y1: nat, y2: nat)
    ensures YearDocId(teamKey, y1) == YearDocId(teamKey, y2) ==> y1 == y2
  {
    if YearDocId(teamKey, y1) == YearDocId(teamKey, y2) {
      var s := YearDocId(teamKey, y1);
      assert Dec(y1) == s[|teamKey| + 1..] == Dec(y2);
      DecInjective(y1, y2);
    }
  }
}
