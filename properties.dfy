/**
 * Properties of the submission-limit frontend: what each validation path
 * decides, how the feedback message agrees with the validation, what the
 * counter tag and the counter update leave behind, and the scenarios that
 * connect the handlers one after another.
 */
module FrontendProperties {
  import opened PhpBuiltins
  import opened Frontend

  /** The email check fires: a non-empty email is found in a stored row of the form. */
  predicate DuplicateFound(s: Store, p: Payload)
    reads s
  {
    !IsEmptyValue(p.email) && s.HasDuplicate(p.form, p.email)
  }

  /**
   * When a submission is let through, stated declaratively: no duplicate
   * email, and, if the limit is enabled, every check of the limit type in
   * force holds.
   */
  predicate Admissible(s: Store, p: Payload)
    reads s
  {
    var cfg := s.Config(p.form);
    var t := EffectiveType(cfg.limitType);
    var key := IntText(p.form);
    && !DuplicateFound(s, p)
    && (cfg.enabled && t == UserFormSubmit ==>
          p.loginFlag && s.TokenMatches(key, p.assertedUser) && s.UserExists(p.assertedUser)
          && s.UserCount(p.assertedUser, key) < cfg.cap)
    && (cfg.enabled && t == FormSubmit ==> s.FormCount(p.form) < cfg.cap)
  }

  /* ---------------------------------------------------------------------- */
  /* validation                                                               */
  /* ---------------------------------------------------------------------- */

  /** The validation leaves the result unchanged exactly for admissible submissions. */
  lemma ValidatePassesIffAdmissible(s: Store, p: Payload)
    ensures s.Validate(p) == Unchanged <==> Admissible(s, p)
  {
  }

  /** With the limit disabled only the duplicate email can reject, whatever the counters say. */
  lemma DisabledFormOnlyChecksEmail(s: Store, p: Payload)
    requires !s.Config(p.form).enabled
    ensures s.Validate(p) == if DuplicateFound(s, p) then Invalidated(EmailField, EmailTaken) else Unchanged
  {
  }

  /**
   * The per-user path in its order: the login flag, then the token for the
   * asserted user, then the account, then the per-user counter.
   */
  lemma PerUserChecks(s: Store, p: Payload)
    requires !DuplicateFound(s, p)
    requires s.Config(p.form).enabled && EffectiveType(s.Config(p.form).limitType) == UserFormSubmit
    ensures var r := s.Validate(p);
      var here := FormField(p.form);
      var key := IntText(p.form);
      && (!p.loginFlag ==> r == Invalidated(here, NoLogin))
      && (p.loginFlag && !s.TokenMatches(key, p.assertedUser) ==> r == Invalidated(here, InvalidUserId))
      && (p.loginFlag && s.TokenMatches(key, p.assertedUser) && !s.UserExists(p.assertedUser) ==>
            r == Invalidated(here, InvalidUser))
      && (p.loginFlag && s.TokenMatches(key, p.assertedUser) && s.UserExists(p.assertedUser) ==>
            (r == Invalidated(here, UserLimitOver) <==> s.UserCount(p.assertedUser, key) >= s.Config(p.form).cap)
            && (r == Unchanged <==> s.UserCount(p.assertedUser, key) < s.Config(p.form).cap))
  {
  }

  /**
   * The per-form path, taken also when no limit type is stored: rejected
   * exactly when the form's counter has reached the cap.
   */
  lemma PerFormChecks(s: Store, p: Payload)
    requires !DuplicateFound(s, p)
    requires s.Config(p.form).enabled && EffectiveType(s.Config(p.form).limitType) == FormSubmit
    ensures s.Validate(p) == Invalidated(FormField(p.form), FormLimitOver) <==>
              s.FormCount(p.form) >= s.Config(p.form).cap
    ensures s.Validate(p) == Unchanged <==> s.FormCount(p.form) < s.Config(p.form).cap
  {
  }

  /** A limit type other than the two known ones is not checked at all. */
  lemma OtherLimitTypePasses(s: Store, p: Payload)
    requires !DuplicateFound(s, p)
    requires EffectiveType(s.Config(p.form).limitType) !in {FormSubmit, UserFormSubmit}
    ensures s.Validate(p) == Unchanged
  {
  }

  /**
   * While every token is stored under the user it names, a submission that
   * asserts no user (id 0) never passes the token check.
   */
  lemma AnonymousAssertionRejected(s: Store, p: Payload)
    requires s.TokensBound()
    requires !DuplicateFound(s, p) && p.loginFlag && p.assertedUser == 0
    requires s.Config(p.form).enabled && EffectiveType(s.Config(p.form).limitType) == UserFormSubmit
    ensures s.Validate(p) == Invalidated(FormField(p.form), InvalidUserId)
  {
  }

  /**
   * A cap of 3 rejects at count 3 and lets a submission through at count 2,
   * whose feedback then reports one submission remaining.
   */
  lemma CapOfThreeExample(s: Store, p: Payload)
    requires !DuplicateFound(s, p)
    requires s.Config(p.form).enabled && s.Config(p.form).limitType in {"", FormSubmit}
    requires s.Config(p.form).cap == 3
    ensures s.FormCount(p.form) == 3 ==>
              s.Validate(p) == Invalidated(FormField(p.form), FormLimitOver)
              && s.Feedback(p) == "Form submission limit is over."
    ensures s.FormCount(p.form) == 2 ==>
              s.Validate(p) == Unchanged
              && s.Feedback(p) == "You have 1 form submission remaining."
  {
    PerFormChecks(s, p);
    FeedbackCases(s, p);
    if s.FormCount(p.form) == 2 {
      assert s.Feedback(p) == RemainingMessage(1);
      RemainingOneText();
    }
  }

  lemma RemainingOneText()
    ensures RemainingMessage(1) == "You have 1 form submission remaining."
  {
    var text := "You have 1 form submission remaining.";
    assert DigitChar(1) == '1';
    assert Decimal(1) == ['1'];
    var m := RemainingMessage(1);
    assert m == "You have " + ['1'] + " form submission remaining.";
    assert |m| == |text|;
    assert forall i :: 0 <= i < |m| ==> m[i] == text[i];
  }

  /**
   * A stored limit type "" and a stored `formsubmit` are the same to the
   * validation and the feedback: two stores that differ only in that setting
   * of the submitted form decide and report alike.
   */
  lemma UnsetTypeReadsAsFormSubmit(s: Store, t: Store, p: Payload)
    requires s.Config(p.form).limitType == ""
    requires t.Config(p.form) == s.Config(p.form).(limitType := FormSubmit)
    requires s.formCounts == t.formCounts && s.userCounts == t.userCounts
    requires s.tokens == t.tokens && s.users == t.users && s.submissions == t.submissions
    ensures s.Validate(p) == t.Validate(p)
    ensures s.Feedback(p) == t.Feedback(p)
  {
  }

  /**
   * A negative posted form id reads the settings and the per-form counter of
   * its absolute value, but keys the field name, the token and the per-user
   * counter by the signed text.
   */
  lemma NegativeFormId(s: Store, p: Payload, q: Payload)
    requires p.form < 0 && q == p.(form := -p.form)
    ensures s.Config(p.form) == s.Config(q.form) && s.FormCount(p.form) == s.FormCount(q.form)
    ensures IntText(p.form) == "-" + IntText(q.form)
    ensures FieldName(FormField(p.form)) != FieldName(FormField(q.form))
  {
    FieldNameInjective(FormField(p.form), FormField(q.form));
  }

  /* ---------------------------------------------------------------------- */
  /* feedback                                                                 */
  /* ---------------------------------------------------------------------- */

  /** The remaining-count message carries its count: it can be read back from the text. */
  lemma RemainingMessageReadsBack(n: nat)
    ensures var msg := RemainingMessage(n);
      |msg| > 36 && msg[..9] == "You have " && AbsInt(msg[9..|msg| - 27]) == n
  {
    var msg := RemainingMessage(n);
    assert msg[9..|msg| - 27] == Decimal(n);
    AbsIntDecimal(n);
  }

  /** Different counts give different remaining-count messages. */
  lemma RemainingMessageInjective(a: nat, b: nat)
    ensures RemainingMessage(a) == RemainingMessage(b) ==> a == b
  {
    RemainingMessageReadsBack(a);
    RemainingMessageReadsBack(b);
  }

  /** A remaining-count message is none of the other texts the feedback can carry. */
  lemma RemainingMessageDistinct(n: nat)
    ensures RemainingMessage(n) !in {"", UserLimitOver, FormLimitOver}
  {
    var msg := RemainingMessage(n);
    assert msg[3] == ' ';
    assert UserLimitOver[3] == 'r';
    assert FormLimitOver[0] == 'F';
  }

  /** Which text the feedback carries, case by case. */
  lemma FeedbackCases(s: Store, p: Payload)
    ensures var cfg := s.Config(p.form);
      var t := EffectiveType(cfg.limitType);
      var msg := s.Feedback(p);
      var userCount := s.UserCount(p.assertedUser, IntText(p.form));
      var formCount := s.FormCount(p.form);
      && (!cfg.enabled ==> msg == "")
      && (cfg.enabled && t == UserFormSubmit && !p.loginFlag ==> msg == "")
      && (cfg.enabled && t == UserFormSubmit && p.loginFlag ==>
            msg == if userCount >= cfg.cap then UserLimitOver else RemainingMessage(cfg.cap - userCount))
      && (cfg.enabled && t == FormSubmit ==>
            msg == if formCount >= cfg.cap then FormLimitOver else RemainingMessage(cfg.cap - formCount))
      && (t !in {FormSubmit, UserFormSubmit} ==> msg == "")
  {
  }

  /**
   * The feedback and the validation agree on the per-form path: the
   * feedback says the limit is over exactly when the validation rejects,
   * and otherwise reports a positive remaining count.
   */
  lemma FeedbackAgreesPerForm(s: Store, p: Payload)
    requires !DuplicateFound(s, p)
    requires s.Config(p.form).enabled && EffectiveType(s.Config(p.form).limitType) == FormSubmit
    ensures s.Feedback(p) == FormLimitOver <==> s.Validate(p).Invalidated?
    ensures s.Validate(p) == Unchanged <==>
              exists n: nat :: n > 0 && s.Feedback(p) == RemainingMessage(n)
  {
    var cfg := s.Config(p.form);
    var count := s.FormCount(p.form);
    if count < cfg.cap {
      RemainingMessageDistinct(cfg.cap - count);
      assert s.Feedback(p) == RemainingMessage(cfg.cap - count);
    } else {
      forall n: nat | n > 0 ensures s.Feedback(p) != RemainingMessage(n) {
        RemainingMessageDistinct(n);
      }
    }
  }

  /**
   * The feedback and the validation agree on the per-user path once the
   * token and the account check out.
   */
  lemma FeedbackAgreesPerUser(s: Store, p: Payload)
    requires !DuplicateFound(s, p) && p.loginFlag
    requires s.Config(p.form).enabled && EffectiveType(s.Config(p.form).limitType) == UserFormSubmit
    requires s.TokenMatches(IntText(p.form), p.assertedUser) && s.UserExists(p.assertedUser)
    ensures s.Feedback(p) == UserLimitOver <==> s.Validate(p).Invalidated?
  {
    var cfg := s.Config(p.form);
    var count := s.UserCount(p.assertedUser, IntText(p.form));
    if count < cfg.cap {
      RemainingMessageDistinct(cfg.cap - count);
    }
  }

  /**
   * The feedback only reads: it depends on the settings and the counters
   * and on nothing else in the store, so asking twice over the same
   * settings and counters gives the same text.
   */
  lemma FeedbackDependsOnCountersOnly(s: Store, t: Store, p: Payload)
    requires s.configs == t.configs && s.formCounts == t.formCounts && s.userCounts == t.userCounts
    ensures s.Feedback(p) == t.Feedback(p)
  {
  }

  /* ---------------------------------------------------------------------- */
  /* counter tag                                                              */
  /* ---------------------------------------------------------------------- */

  /** A tag name `<prefix>:<key>` with no other colon is parsed to the form text `key`. */
  lemma TagNameSplits(prefix: string, key: string)
    requires ':' !in prefix && ':' !in key
    ensures CounterTagForm(prefix + ":" + key) == Some(key)
  {
    var name := prefix + ":" + key;
    assert name == prefix + [':'] + key;
    ExplodeHead(':', prefix, key);
    ExplodeFree(':', key);
    assert Explode(':', name) == [prefix, key];
  }

  /** A tag name `<prefix>:<id>` addresses form `id` and keys its token by the text of `id`. */
  lemma CanonicalTagName(prefix: string, form: nat)
    requires ':' !in prefix
    ensures CounterTagForm(prefix + ":" + Decimal(form)) == Some(Decimal(form))
    ensures AbsInt(Decimal(form)) == form
  {
    assert !IsDigit(':');
    TagNameSplits(prefix, Decimal(form));
    AbsIntDecimal(form);
  }

  /**
   * A form id written with a leading zero reads the settings of the form
   * it denotes, but keys the token and the per-user counter by its own text,
   * which the validation of that form never reads.
   */
  lemma LeadingZeroTagName()
    ensures CounterTagForm("counter:07") == Some("07")
    ensures AbsInt("07") == 7 && Decimal(7) != "07"
  {
    assert "counter:07" == "counter" + ":" + "07";
    TagNameSplits("counter", "07");
    LeadingZeroValue();
  }

  lemma LeadingZeroValue()
    ensures AbsInt("07") == 7
  {
    var t := "07";
    assert DigitRun(t[1..]) == 1;
    assert DigitRun(t) == 2;
    assert t[..2] == t;
    assert t[..1] == "0";
    assert DigitsValue("0") == 0;
  }

  /**
   * Form texts for which WordPress reads no settings: empty, not a number,
   * a number followed by other characters, or id 0.
   */
  lemma UnreadableFormTexts()
    ensures !IsIntegerText("") && !IsIntegerText("abc") && !IsIntegerText("7abc")
    ensures IsIntegerText("0") && AbsInt("0") == 0
  {
    assert !IsDigit("abc"[0]);
    assert !IsDigit("7abc"[1]);
    assert "0"[..1] == "0";
  }

  /**
   * Rendering the per-user tag `<prefix>:<form>` for a logged-in user, then
   * submitting the form as that user: the token check passes, and the
   * outcome is decided by the account and the per-user counter.
   */
  method RenderThenSubmit(s: Store, prefix: string, form: nat, user: nat) returns (out: Rendered)
    requires ':' !in prefix && user != 0
    requires EffectiveType(s.Config(form).limitType) == UserFormSubmit
    requires s.Config(form).enabled
    modifies s`tokens
    ensures s.TokenMatches(Decimal(form), user)
    ensures out == UserCounter(user, s.Config(form).cap - s.UserCount(user, Decimal(form)), s.Config(form).display)
    ensures var p := Payload(form, "", true, user);
      s.Validate(p) ==
        if !s.UserExists(user) then Invalidated(FormField(form), InvalidUser)
        else if s.UserCount(user, Decimal(form)) >= s.Config(form).cap then Invalidated(FormField(form), UserLimitOver)
        else Unchanged
  {
    var key := Decimal(form);
    var name := prefix + ":" + key;
    CanonicalTagName(prefix, form);
    assert CounterTagForm(name) == Some(key) && AbsInt(key) == form;
    out := s.RenderCounterTag(name, user);
    assert s.tokens == old(s.tokens)[(key, user) := user];
    assert s.TokenMatches(key, user);
  }

  /* ---------------------------------------------------------------------- */
  /* counter update                                                           */
  /* ---------------------------------------------------------------------- */

  /**
   * Counting a submission never lifts a rejection for being over the limit:
   * settings, tokens, accounts and stored rows are left alone and the
   * counters only grow.
   */
  twostate lemma OverLimitPersists(s: Store, p: Payload)
    requires unchanged(s`configs, s`tokens, s`users, s`submissions)
    requires forall f :: old(s.FormCount(f)) <= s.FormCount(f)
    requires forall u, k :: old(s.UserCount(u, k)) <= s.UserCount(u, k)
    requires old(s.Validate(p)) in {Invalidated(FormField(p.form), FormLimitOver), Invalidated(FormField(p.form), UserLimitOver)}
    ensures s.Validate(p) == old(s.Validate(p))
  {
    assert old(s.UserCount(p.assertedUser, IntText(p.form))) <= s.UserCount(p.assertedUser, IntText(p.form));
    assert old(s.FormCount(p.form)) <= s.FormCount(p.form);
  }

  /** An accepted per-form submission, once counted, moves the form one step closer to its cap. */
  method SubmitAndCount(s: Store, p: Payload)
    requires s.Config(p.form).enabled && s.Config(p.form).limitType == FormSubmit
    requires s.Validate(p) == Unchanged
    modifies s`formCounts, s`userCounts
    ensures s.FormCount(p.form) == old(s.FormCount(p.form)) + 1 <= s.Config(p.form).cap
  {
    s.CountSubmission(Abs(p.form), p.assertedUser);
  }

  /**
   * A form with the limit enabled and no stored limit type, capped at one
   * submission: the validation checks the per-form counter, but the counter
   * update never raises it, so a second and a third submission are still
   * let through.
   */
  method LegacyFormNeverLimited(s: Store, p: Payload)
    requires !DuplicateFound(s, p)
    requires s.Config(p.form).enabled && s.Config(p.form).limitType == "" && s.Config(p.form).cap == 1
    requires s.FormCount(p.form) == 0
    modifies s`formCounts, s`userCounts
    ensures s.FormCount(p.form) == 0
    ensures s.Validate(p) == Unchanged
  {
    assert s.Validate(p) == Unchanged;
    s.CountSubmission(Abs(p.form), p.assertedUser);
    assert s.Validate(p) == Unchanged;
    s.CountSubmission(Abs(p.form), p.assertedUser);
  }

  /**
   * The same form with the unset limit type read as `formsubmit` by the
   * counter update too: after one counted submission the next is rejected.
   */
  method LegacyFormLimitedWhenDefaulted(s: Store, p: Payload)
    requires !DuplicateFound(s, p)
    requires s.Config(p.form).enabled && s.Config(p.form).limitType == "" && s.Config(p.form).cap == 1
    requires s.FormCount(p.form) == 0
    modifies s`formCounts, s`userCounts
    ensures s.FormCount(p.form) == 1
    ensures s.Validate(p) == Invalidated(FormField(p.form), FormLimitOver)
  {
    assert s.Validate(p) == Unchanged;
    s.CountSubmissionDefaulted(Abs(p.form), p.assertedUser);
  }
}
