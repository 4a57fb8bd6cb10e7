/** The interrupt controller as a driver sees it: what each register access does, by its offset, and
    what the claim and completion handshake does to a source. */
module PlicMeaning {
  import opened Basics
  import opened PlicModel

  /** The claim register of a context: reading it claims, writing it completes. */
  function ClaimOffset(context: nat): nat { 0x20_0004 + 0x1000 * context }

  /** Asserted, not claimed, enabled for the context and above its threshold. */
  predicate Waiting(s: State, context: nat, x: nat)
    requires s.Valid() && context < 2
  {
    x in s.levels && x !in s.claimed && x in s.enable[context] && s.priority[x] > s.threshold[context]
  }

  /** More urgent: of higher priority, or of the same and lower numbered. */
  predicate Precedes(s: State, x: nat, y: nat)
    requires s.Valid() && x < 32 && y < 32
  {
    s.priority[x] > s.priority[y] || (s.priority[x] == s.priority[y] && x < y)
  }

  lemma WaitingIsEligible(s: State, context: nat, x: nat)
    requires s.Valid() && context < 2
    ensures Waiting(s, context, x) == s.Eligible(context, x)
    ensures Waiting(s, context, x) ==> 1 <= x < 32
  {
  }

  lemma ClaimOffsetIs(context: nat)
    requires context < 2
    ensures ClaimContext(ClaimOffset(context)) == Some(context)
  {
  }

  /** Claiming: the read hands out the most urgent waiting source, or 0 if none waits, and marks just
      that source claimed. */
  lemma ClaimMeans(s: State, context: nat)
    requires s.Valid() && context < 2
    ensures var x, t := s.ReadValue(ClaimOffset(context)), s.AfterRead(ClaimOffset(context));
            x < 32 && (x == 0 <==> forall y :: !Waiting(s, context, y)) &&
            (x != 0 ==> Waiting(s, context, x)) &&
            (forall y :: Waiting(s, context, y) && y != x ==> Precedes(s, x, y)) &&
            t == s.(claimed := if x == 0 then s.claimed else s.claimed + {x})
  {
    hide State.Best, State.Eligible;
    BestSpec(s, context);
    ClaimOffsetIs(context);
    forall y ensures Waiting(s, context, y) == s.Eligible(context, y) { WaitingIsEligible(s, context, y); }
  }

  /** Completing: writing a source's number to either claim register releases that source and changes
      nothing else, whichever context claimed it. A number that is no source changes nothing. */
  lemma CompletionReleases(s: State, context: nat, value: nat)
    requires s.Valid() && context < 2
    ensures var t, x := s.AfterWrite(ClaimOffset(context), value), value % 0x1_0000_0000;
            t == s.(claimed := t.claimed) && (x < 32 ==> x !in t.claimed) &&
            forall y :: y != x ==> (y in t.claimed <==> y in s.claimed)
  {
  }

  /** A completed source whose line is still up waits again at once wherever it is enabled and above
      the threshold; one whose line has dropped does not. */
  lemma WaitsAgain(s: State, context: nat, other: nat, x: nat)
    requires s.Valid() && context < 2 && other < 2 && 1 <= x < 32
    ensures var t := s.AfterWrite(ClaimOffset(other), x);
            t.Valid() &&
            (Waiting(t, context, x) <==>
             x in s.levels && x in s.enable[context] && s.priority[x] > s.threshold[context])
  {
    CompletionReleases(s, other, x);
    hide State.AfterWrite;
  }

  /** The handshake undoes itself: a claim and its completion, through either register, leave the
      controller as it was, so that a line still up is handed out again by the next claim. */
  lemma HandshakeRepeats(s: State, context: nat, other: nat)
    requires s.Valid() && context < 2 && other < 2 && s.ReadValue(ClaimOffset(context)) != 0
    ensures var x, t := s.ReadValue(ClaimOffset(context)), s.AfterRead(ClaimOffset(context));
            x in t.claimed && t.AfterWrite(ClaimOffset(other), x) == s &&
            Handed(t.AfterWrite(ClaimOffset(other), x), Read(ClaimOffset(context))) == x
  {
    hide State.AfterRead, State.AfterWrite, State.ReadValue;
    var x, t := s.ReadValue(ClaimOffset(context)), s.AfterRead(ClaimOffset(context));
    ClaimMeans(s, context);
    CompletionReleases(t, other, x);
    ClaimOffsetIs(context);
    assert t.AfterWrite(ClaimOffset(other), x).claimed == s.claimed;
  }

  /** What the other registers do, by their offsets: priorities four bytes apart from 0, enables 0x80
      apart from 0x2000, thresholds 0x1000 apart from 0x200000. */
  lemma WritesMean(s: State, context: nat, x: nat, value: nat)
    requires s.Valid() && context < 2 && 1 <= x < 32
    ensures s.AfterWrite(4 * x, value) == s.(priority := s.priority[x := value % 0x1_0000_0000])
    ensures s.AfterWrite(0x20_0000 + 0x1000 * context, value) ==
            s.(threshold := s.threshold[context := value % 0x1_0000_0000])
    ensures var t := s.AfterWrite(0x2000 + 0x80 * context, value);
            t == s.(enable := s.enable[context := t.enable[context]]) &&
            forall i :: i in t.enable[context] <==> 1 <= i < 32 && BitAt(value % 0x1_0000_0000, i)
  {
    hide BitAt;
  }

  lemma PlainReads(s: State, context: nat, x: nat)
    requires s.Valid() && context < 2 && x < 32
    ensures s.ReadValue(4 * x) == s.priority[x] && s.ReadValue(0x20_0000 + 0x1000 * context) == s.threshold[context]
    ensures s.ReadValue(0x2000 + 0x80 * context) == Word(s.enable[context])
    ensures s.ReadValue(0x1000) == Word(s.Pending())
  {
    hide Word, State.Best, State.Pending;
  }

  lemma BitOfWord(bits: set<nat>, x: nat)
    requires x < 32
    ensures BitAt(Word(bits), x) <==> x in bits
  {
    WordBit(bits, 0, x);
    hide BitAt, WordFrom;
  }

  /** The same registers read, and the pending register shows what is asserted and unclaimed. */
  lemma ReadsMean(s: State, context: nat, x: nat)
    requires s.Valid() && context < 2 && x < 32
    ensures s.ReadValue(4 * x) == s.priority[x] && s.ReadValue(0x20_0000 + 0x1000 * context) == s.threshold[context]
    ensures BitAt(s.ReadValue(0x2000 + 0x80 * context), x) <==> x in s.enable[context]
    ensures BitAt(s.ReadValue(0x1000), x) <==> x in s.levels && x !in s.claimed
  {
    hide BitAt, Word, State.ReadValue;
    PlainReads(s, context, x);
    BitOfWord(s.enable[context], x);
    BitOfWord(s.Pending(), x);
  }

  /** A line is asserted after it is raised and not after it is lowered; other lines, and everything
      for a number that is no source, stay as they were. */
  lemma LevelMeans(s: State, source: nat, asserted: bool)
    requires s.Valid()
    ensures var t := s.SetLevel(source, asserted);
            t == s.(levels := t.levels) && (1 <= source < 32 ==> (source in t.levels <==> asserted)) &&
            forall y :: y != source || source == 0 || source >= 32 ==> (y in t.levels <==> y in s.levels)
  {
  }
}
