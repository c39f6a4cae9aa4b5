/**
 * The configuration wizard (src/commands/config.ts): three questions,
 * each answered by a line of input that is trimmed, and the site
 * configuration built from the answers and the current configuration.
 * Loading and saving the configuration file is not part of this model:
 * the current configuration is a parameter and the saved one the result.
 */
module ConfigWizard {
  import opened Wrappers
  import opened Text
  import opened Types
  import Ui

  /** The theme names the wizard accepts. `tech` is not among them. */
  const Offered: set<string> := {"guardian", "times", "tagesschau"}

  /** The theme picked by an answer, and the warning printed when the
      answer is not accepted. */
  datatype ThemeChoice = ThemeChoice(theme: Theme, warning: Option<string>)

  function UnknownThemeWarning(input: string, current: Theme): string {
    "Unknown theme \"" + input + "\", keeping \"" + current.Name() + "\"."
  }

  /** The theme question: one of the offered names switches to that theme;
      any other non-empty answer keeps the current theme with a warning; an
      empty answer keeps it silently. */
  function ChooseTheme(input: string, current: Theme): (c: ThemeChoice)
    ensures c.theme == current || c.theme.Name() == input
    ensures c.theme != current ==> input in Offered
    ensures input in Offered ==> c.theme.Name() == input && c.warning.None?
    ensures c.warning.Some? <==> input != "" && input !in Offered
  {
    if input == "guardian" then ThemeChoice(Guardian, None)
    else if input == "times" then ThemeChoice(Times, None)
    else if input == "tagesschau" then ThemeChoice(Tagesschau, None)
    else if |input| > 0 then ThemeChoice(current, Some(UnknownThemeWarning(input, current)))
    else ThemeChoice(current, None)
  }

  /** Every theme but `tech` can be chosen by its name. */
  lemma OfferedThemesChosen(t: Theme, current: Theme)
    requires t != Tech
    ensures ChooseTheme(t.Name(), current) == ThemeChoice(t, None)
  {
  }

  /** Typing `tech` never selects the tech theme: the answer is rejected
      with a warning, although `tech` is a valid theme and the default. */
  lemma TechRejected(current: Theme)
    ensures ChooseTheme("tech", current).theme == current
    ensures ChooseTheme("tech", current).warning == Some(UnknownThemeWarning("tech", current))
  {
  }

  /** The tech theme comes out of the wizard only when it was already the
      current theme. */
  lemma TechOnlyKept(input: string, current: Theme)
    ensures ChooseTheme(input, current).theme == Tech ==> current == Tech
  {
    var c := ChooseTheme(input, current);
    if c.theme != current {
      assert input in Offered;
    }
  }

  /** The wizard's result: the configuration it saves and the warnings it
      printed. */
  datatype Outcome = Outcome(config: SiteConfig, warnings: seq<string>)

  /** `config()` with the three raw answers. Title and description are
      the trimmed answer or the current value; the theme follows
      `ChooseTheme`. */
  function Wizard(current: SiteConfig, titleAnswer: string, descriptionAnswer: string,
                  themeAnswer: string): (o: Outcome)
    ensures o.config.title == (if Trim(titleAnswer) == "" then current.title else Trim(titleAnswer))
    ensures o.config.description
            == (if Trim(descriptionAnswer) == "" then current.description else Trim(descriptionAnswer))
    ensures o.config.theme == current.theme || o.config.theme.Name() in Offered
    ensures |o.warnings| <= 1
  {
    var title := Ui.PickOrDefault(Trim(titleAnswer), current.title);
    var description := Ui.PickOrDefault(Trim(descriptionAnswer), current.description);
    var choice := ChooseTheme(Trim(themeAnswer), current.theme);
    Outcome(SiteConfig(title, choice.theme, description),
            if choice.warning.Some? then [choice.warning.value] else [])
  }

  /** Pressing Enter at every question saves the current configuration
      unchanged and prints no warning. */
  lemma EnterKeepsConfig(current: SiteConfig)
    ensures Wizard(current, "", "", "") == Outcome(current, [])
  {
  }

  /** Running the wizard again with the same answers saves the same
      configuration. */
  lemma WizardIdempotent(current: SiteConfig, t: string, d: string, th: string)
    ensures Wizard(Wizard(current, t, d, th).config, t, d, th).config == Wizard(current, t, d, th).config
  {
  }

  /** The saved configuration is made of the answers and the current
      configuration only: each field is either the trimmed answer or the
      current value. */
  lemma FieldsFromAnswers(current: SiteConfig, t: string, d: string, th: string)
    ensures var c := Wizard(current, t, d, th).config;
            && (c.title == Trim(t) || c.title == current.title)
            && (c.description == Trim(d) || c.description == current.description)
            && (c.theme.Name() == Trim(th) || c.theme == current.theme)
  {
  }
}
