/**
 * The submission-limit frontend of the contact-form extension: the counter
 * tag, the ordered validation checks, the feedback message and the counter
 * update, over a store that holds the WordPress metadata, transients, user
 * accounts and the rows of the form-data storage plugin.
 */
module Frontend {
  import opened PhpBuiltins

  datatype Option<T> = None | Some(value: T)

  /* ---------------------------------------------------------------------- */
  /* configuration                                                            */
  /* ---------------------------------------------------------------------- */

  const FormSubmit: string := "formsubmit"
  const UserFormSubmit: string := "userformsubmit"

  /**
   * The limit type in force: a form saved before limit types existed has
   * none stored, and the tag, the validation and the feedback read it as
   * `formsubmit`.
   */
  function EffectiveType(stored: string): string {
    if stored == "" then FormSubmit else stored
  }

  /** Display settings the counter tag hands to its template unchanged. */
  datatype Display = Display(
    afterSubmission: string,
    reloadDelay: string,
    redirectPage: nat,
    messageDisabled: string)

  /**
   * The limit settings of one form. `enabled` says that the stored enable
   * flag equals 1; `limitType` is the stored text, "" when never set; `cap`
   * is the total number of submissions allowed.
   */
  datatype FormConfig = FormConfig(enabled: bool, limitType: string, cap: int, display: Display)

  /** What every setting of a form without stored settings reads as. */
  const Unconfigured: FormConfig := FormConfig(false, "", 0, Display("", "", 0, ""))

  /* ---------------------------------------------------------------------- */
  /* requests and answers                                                     */
  /* ---------------------------------------------------------------------- */

  /**
   * The posted fields the validation and the feedback read: the form id as
   * PHP's integer cast reads it (it may be negative), the sanitized email (""
   * when absent), whether the login flag equals 1, and the asserted user id
   * (0 when absent).
   */
  datatype Payload = Payload(form: int, email: string, loginFlag: bool, assertedUser: nat)

  /** The field a validation failure is attached to. */
  datatype Field = EmailField | FormField(form: int)

  function FieldName(f: Field): (name: string)
    ensures f.FormField? ==>
      |name| > 7 && name[..7] == "formid:" && IsIntegerText(name[7..]) && AbsInt(name[7..]) == Abs(f.form)
  {
    match f
    case EmailField => "your-email"
    case FormField(id) =>
      var name := "formid:" + IntText(id);
      assert name[7..] == IntText(id);
      AbsIntIntText(id);
      name
  }

  /** Failures of different forms, negative ids included, are reported on different fields. */
  lemma FieldNameInjective(f: Field, g: Field)
    requires f.FormField? && g.FormField?
    ensures FieldName(f) == FieldName(g) ==> f == g
  {
    var a, b := FieldName(f), FieldName(g);
    assert a[7..] == IntText(f.form);
    assert b[7..] == IntText(g.form);
    IntTextInjective(f.form, g.form);
  }

  /** The validation result as this frontend leaves it. */
  datatype Outcome = Unchanged | Invalidated(field: Field, message: string)

  const EmailTaken: string := "This email has already been registered."
  const NoLogin: string := "You can not submit this form without login."
  const InvalidUserId: string := "Invalid user ID."
  const InvalidUser: string := "Invalid user."
  const UserLimitOver: string := "Your form submission limit is over."
  const FormLimitOver: string := "Form submission limit is over."

  /** "You have %d form submission remaining." with `n` in place of `%d`. */
  function RemainingMessage(n: nat): string {
    "You have " + Decimal(n) + " form submission remaining."
  }

  /** What the counter tag renders; the template's markup itself is not modelled. */
  datatype Rendered =
    | NoOutput                                                  // the empty string
    | LoginRequired                                             // per-user template, logged out
    | UserCounter(user: nat, remaining: int, display: Display)  // per-user template, logged in
    | FormCounter(remaining: int, display: Display)             // per-form template
    | Delegated(formKey: string, limitType: Option<string>, user: nat)  // handed to the extension hook

  /**
   * The form id text of a counter tag name: the part after the colon when
   * the name splits on ':' into exactly two parts.
   */
  function CounterTagForm(name: string): (key: Option<string>)
    ensures key.Some? <==> multiset(name)[':'] == 1
    ensures key.Some? ==>
      && ':' !in key.value
      && |key.value| < |name|
      && name[|name| - |key.value| - 1] == ':'
      && name[|name| - |key.value|..] == key.value
  {
    var parts := Explode(':', name);
    ExplodeCount(':', name);
    if |parts| == 2 then
      ImplodeExplode(':', name);
      assert name == parts[0] + [':'] + parts[1];
      Some(parts[1])
    else
      None
  }

  /* ---------------------------------------------------------------------- */
  /* the store                                                                */
  /* ---------------------------------------------------------------------- */

  /**
   * The host storage the frontend reads and writes. Post metadata is keyed
   * by the numeric form id, which WordPress reads through `absint`. The
   * per-user counter key and the login-token key embed the form id as TEXT,
   * exactly as it is interpolated into the metadata and transient names, so
   * they are keyed by that text. The stored rows of the form-data plugin are
   * matched on the id as posted, sign included.
   */
  class Store {
    var configs: map<nat, FormConfig>           // limit settings per form
    var formCounts: map<nat, nat>               // accepted submissions per form
    var userCounts: map<(nat, string), nat>     // accepted submissions per (user, form text)
    var tokens: map<(string, nat), nat>         // login token per (form text, user): the user id
    var users: set<nat>                         // existing user accounts
    var submissions: set<(int, string)>         // stored rows of the form-data plugin: (form, value)

    /**
     * The settings read for a numeric form id: WordPress reads post metadata
     * of `absint` of the id, and nothing for id 0, which leaves the limit
     * disabled.
     */
    function Config(form: int): FormConfig
      reads this
    {
      var id := Abs(form);
      if id != 0 && id in configs then configs[id] else Unconfigured
    }

    /** An unset counter, and the counter of id 0, read as 0. */
    function FormCount(form: int): nat
      reads this
    {
      var id := Abs(form);
      if id != 0 && id in formCounts then formCounts[id] else 0
    }

    /**
     * The settings the counter tag reads for the form text of its name.
     * WordPress reads no metadata at all (`false`) for a text that is not
     * numeric or that reads as id 0; that `false` is neither "" nor a known
     * limit type.
     */
    function TagConfig(formKey: string): Option<FormConfig>
      reads this
    {
      if IsIntegerText(formKey) && AbsInt(formKey) != 0 then Some(Config(AbsInt(formKey))) else None
    }

    /** User metadata of user id 0 always reads as unset. */
    function UserCount(user: nat, formKey: string): nat
      reads this
    {
      if user != 0 && (user, formKey) in userCounts then userCounts[(user, formKey)] else 0
    }

    /** The token read back for (form text, user) holds that very user id. */
    predicate TokenMatches(formKey: string, user: nat)
      reads this
    {
      (formKey, user) in tokens && tokens[(formKey, user)] == user
    }

    predicate UserExists(user: nat)
      reads this
    {
      user != 0 && user in users
    }

    /** Some stored row of this form contains the email. */
    predicate HasDuplicate(form: int, email: string)
      reads this
    {
      exists row :: row in submissions && row.0 == form && Contains(row.1, email)
    }

    /** Every token is stored under the logged-in user it names. */
    predicate TokensBound()
      reads this
    {
      forall k :: k in tokens ==> k.1 != 0 && tokens[k] == k.1
    }

    /* -------------------------------------------------------------------- */
    /* custom_counter_tag_handler                                            */
    /* -------------------------------------------------------------------- */

    /**
     * Renders the counter tag `name` for the user currently logged in
     * (`currentUser`, 0 when nobody is). On the per-user path with a user
     * logged in it issues the login token for that form and user. A form
     * text for which no settings can be read goes to the extension hook.
     */
    method RenderCounterTag(name: string, currentUser: nat) returns (out: Rendered)
      modifies this`tokens
      ensures CounterTagForm(name).None? ==> out == NoOutput && tokens == old(tokens)
      ensures CounterTagForm(name).Some? && !IsIntegerText(CounterTagForm(name).value) ==>
        out == Delegated(CounterTagForm(name).value, None, currentUser) && tokens == old(tokens)
      ensures CounterTagForm(name).Some? && AbsInt(CounterTagForm(name).value) == 0 ==>
        out == Delegated(CounterTagForm(name).value, None, currentUser) && tokens == old(tokens)
      ensures CounterTagForm(name).Some? && IsIntegerText(CounterTagForm(name).value)
              && AbsInt(CounterTagForm(name).value) != 0 ==>
        var key := CounterTagForm(name).value;
        var cfg := Config(AbsInt(key));
        var t := EffectiveType(cfg.limitType);
        && (t == UserFormSubmit && currentUser != 0 ==>
              && out == UserCounter(currentUser, cfg.cap - UserCount(currentUser, key), cfg.display)
              && tokens == old(tokens)[(key, currentUser) := currentUser])
        && (t == UserFormSubmit && currentUser == 0 ==> out == LoginRequired && tokens == old(tokens))
        && (t == FormSubmit ==>
              out == FormCounter(cfg.cap - FormCount(AbsInt(key)), cfg.display) && tokens == old(tokens))
        && (t != UserFormSubmit && t != FormSubmit ==>
              out == Delegated(key, Some(t), currentUser) && tokens == old(tokens))
      ensures tokens == old(tokens) || (currentUser != 0 && tokens.Keys == old(tokens).Keys + {(CounterTagForm(name).value, currentUser)})
      ensures old(TokensBound()) ==> TokensBound()
    {
      var parts := Explode(':', name);
      if |parts| != 2 {
        return NoOutput;
      }
      var key := parts[1];
      var read := TagConfig(key);
      if read.None? {
        return Delegated(key, None, currentUser);
      }
      var cfg := read.value;
      var limitType := if cfg.limitType == "" then FormSubmit else cfg.limitType;

      if limitType == UserFormSubmit {
        if currentUser != 0 {
          var count := UserCount(currentUser, key);
          out := UserCounter(currentUser, cfg.cap - count, cfg.display);
          tokens := tokens[(key, currentUser) := currentUser];
        } else {
          out := LoginRequired;
        }
        return;
      }

      if limitType == FormSubmit {
        var count := FormCount(AbsInt(key));
        return FormCounter(cfg.cap - count, cfg.display);
      }

      out := Delegated(key, Some(limitType), currentUser);
    }

    /* -------------------------------------------------------------------- */
    /* submission_limit_validation                                           */
    /* -------------------------------------------------------------------- */

    /**
     * The ordered checks run on a submission: the duplicate email first,
     * then, for a form with the limit enabled, the login flag, the token,
     * the account and the per-user counter on the per-user path, or the
     * per-form counter on the per-form path.
     */
    function Validate(p: Payload): (r: Outcome)
      reads this
      ensures r == Invalidated(EmailField, EmailTaken) <==>
                !IsEmptyValue(p.email) && HasDuplicate(p.form, p.email)
      ensures r.Invalidated? && r.field != EmailField ==>
                r.field == FormField(p.form) && Config(p.form).enabled
      ensures r.Invalidated? ==>
                r.message in {EmailTaken, NoLogin, InvalidUserId, InvalidUser, UserLimitOver, FormLimitOver}
    {
      var cfg := Config(p.form);
      if !IsEmptyValue(p.email) && HasDuplicate(p.form, p.email) then
        Invalidated(EmailField, EmailTaken)
      else if !cfg.enabled then
        Unchanged
      else
        var t := EffectiveType(cfg.limitType);
        var here := FormField(p.form);
        if t == UserFormSubmit then
          var key := IntText(p.form);
          if !p.loginFlag then Invalidated(here, NoLogin)
          else if !TokenMatches(key, p.assertedUser) then Invalidated(here, InvalidUserId)
          else if !UserExists(p.assertedUser) then Invalidated(here, InvalidUser)
          else if UserCount(p.assertedUser, key) >= cfg.cap then Invalidated(here, UserLimitOver)
          else Unchanged
        else if t == FormSubmit then
          if FormCount(p.form) >= cfg.cap then Invalidated(here, FormLimitOver) else Unchanged
        else
          Unchanged
    }

    /* -------------------------------------------------------------------- */
    /* process_feedback_response                                             */
    /* -------------------------------------------------------------------- */

    /**
     * The text put under the response key `submission_limit`. It reads the
     * same counters as the validation, but checks neither the email, the
     * token nor the account.
     */
    function Feedback(p: Payload): (msg: string)
      reads this
      ensures msg != "" ==> Config(p.form).enabled
      ensures msg == UserLimitOver ==> EffectiveType(Config(p.form).limitType) == UserFormSubmit
      ensures msg == FormLimitOver ==> EffectiveType(Config(p.form).limitType) == FormSubmit
    {
      var cfg := Config(p.form);
      if !cfg.enabled then ""
      else
        var t := EffectiveType(cfg.limitType);
        if t == UserFormSubmit then
          if !p.loginFlag then ""
          else
            var count := UserCount(p.assertedUser, IntText(p.form));
            if count >= cfg.cap then UserLimitOver else RemainingMessage(cfg.cap - count)
        else if t == FormSubmit then
          var count := FormCount(p.form);
          if count >= cfg.cap then FormLimitOver else RemainingMessage(cfg.cap - count)
        else
          ""
    }

    /* -------------------------------------------------------------------- */
    /* submission_counter_process                                            */
    /* -------------------------------------------------------------------- */

    /**
     * Counts one accepted submission of `form` by `currentUser` (0 when
     * nobody is logged in). The stored limit type is compared as it is: an
     * unset type counts nothing.
     */
    method CountSubmission(form: nat, currentUser: nat)
      modifies this`formCounts, this`userCounts
      ensures var cfg := Config(form);
        if cfg.enabled && cfg.limitType == FormSubmit then
          && formCounts == old(formCounts)[form := old(FormCount(form)) + 1]
          && userCounts == old(userCounts)
        else if cfg.enabled && cfg.limitType == UserFormSubmit && currentUser != 0 then
          var key := (currentUser, Decimal(form));
          && userCounts == old(userCounts)[key := old(UserCount(currentUser, Decimal(form))) + 1]
          && formCounts == old(formCounts)
        else
          formCounts == old(formCounts) && userCounts == old(userCounts)
      ensures forall f :: old(FormCount(f)) <= FormCount(f)
      ensures forall u, k :: old(UserCount(u, k)) <= UserCount(u, k)
    {
      var enabled := Config(form).enabled;
      if enabled {
        var limitType := Config(form).limitType;
        if limitType == UserFormSubmit {
          if currentUser != 0 {
            var key := Decimal(form);
            var total := UserCount(currentUser, key);
            total := total + 1;
            userCounts := userCounts[(currentUser, key) := total];
          }
        }
        if limitType == FormSubmit {
          var total := FormCount(form);
          total := total + 1;
          formCounts := formCounts[form := total];
        }
      }
    }

    /**
     * The counter update with the unset limit type read as `formsubmit`, as
     * the tag, the validation and the feedback read it.
     */
    method CountSubmissionDefaulted(form: nat, currentUser: nat)
      modifies this`formCounts, this`userCounts
      ensures var cfg := Config(form);
        var t := EffectiveType(cfg.limitType);
        if cfg.enabled && t == FormSubmit then
          && formCounts == old(formCounts)[form := old(FormCount(form)) + 1]
          && userCounts == old(userCounts)
        else if cfg.enabled && t == UserFormSubmit && currentUser != 0 then
          var key := (currentUser, Decimal(form));
          && userCounts == old(userCounts)[key := old(UserCount(currentUser, Decimal(form))) + 1]
          && formCounts == old(formCounts)
        else
          formCounts == old(formCounts) && userCounts == old(userCounts)
      ensures Config(form).enabled && EffectiveType(Config(form).limitType) == FormSubmit ==>
                FormCount(form) == old(FormCount(form)) + 1
      ensures forall f :: old(FormCount(f)) <= FormCount(f)
      ensures forall u, k :: old(UserCount(u, k)) <= UserCount(u, k)
    {
      var enabled := Config(form).enabled;
      if enabled {
        var limitType := EffectiveType(Config(form).limitType);
        if limitType == UserFormSubmit {
          if currentUser != 0 {
            var key := Decimal(form);
            var total := UserCount(currentUser, key);
            total := total + 1;
            userCounts := userCounts[(currentUser, key) := total];
          }
        }
        if limitType == FormSubmit {
          var total := FormCount(form);
          total := total + 1;
          formCounts := formCounts[form := total];
        }
      }
    }
  }
}
