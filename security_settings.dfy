/**
 * The upload security dialog (src/components/files/SecuritySettingsDialog.tsx):
 * the chosen level and recipient email are state cells; confirming emits the
 * settings and resets the cells.
 */
module SecuritySettingsDialog {
  import opened Wrappers
  import opened Text
  import opened FileCard

  /** What the dialog hands to `onConfirm`. */
  datatype SecuritySettings = SecuritySettings(securityLevel: SecurityLevel, recipientEmail: Option<string>)

  /** `canConfirm`, as the source writes it. */
  predicate CanConfirm(level: SecurityLevel, email: string) {
    var isMaximumSecurity := level == Maximum;
    !isMaximumSecurity || (isMaximumSecurity && Includes(email, "@"))
  }

  /** Standard and high confirm whatever the email; maximum confirms exactly when the email
      holds an '@'. */
  lemma CanConfirmRule(level: SecurityLevel, email: string)
    ensures level != Maximum ==> CanConfirm(level, email)
    ensures CanConfirm(Maximum, email) <==> '@' in email
  {
    IncludesChar(email, '@');
  }

  /** The settings `handleConfirm` emits: the email travels only with the maximum level. */
  function Settings(level: SecurityLevel, email: string): (s: SecuritySettings)
    ensures s.securityLevel == level
    ensures s.recipientEmail.Some? <==> level == Maximum
    ensures s.recipientEmail.Some? ==> s.recipientEmail.value == email
  {
    SecuritySettings(level, if level == Maximum then Some(email) else None)
  }

  /** Settings emitted from a confirmable dialog at the maximum level carry a non-empty email
      holding an '@'. */
  lemma ConfirmedMaximumHasEmail(level: SecurityLevel, email: string)
    requires CanConfirm(level, email) && level == Maximum
    ensures Settings(level, email).recipientEmail.Some?
    ensures '@' in Settings(level, email).recipientEmail.value
  {
    CanConfirmRule(level, email);
  }

  class Dialog {
    var securityLevel: SecurityLevel
    var recipientEmail: string
    /** The `open` prop, which the dialog closes through `onOpenChange(false)`. */
    var open: bool

    constructor (open: bool)
      ensures securityLevel == Standard && recipientEmail == "" && this.open == open
    {
      securityLevel := Standard;
      recipientEmail := "";
      this.open := open;
    }

    /** Whether the confirm button is enabled. */
    predicate ConfirmEnabled()
      reads this
    {
      CanConfirm(securityLevel, recipientEmail)
    }

    /** Picking a radio option. */
    method SelectLevel(level: SecurityLevel)
      modifies this
      ensures securityLevel == level
      ensures recipientEmail == old(recipientEmail) && open == old(open)
    {
      securityLevel := level;
    }

    /** Typing in the recipient email field. */
    method SetRecipientEmail(email: string)
      modifies this
      ensures recipientEmail == email
      ensures securityLevel == old(securityLevel) && open == old(open)
    {
      recipientEmail := email;
    }

    /** `handleConfirm`: emits the settings, resets level and email, and closes the dialog. */
    method HandleConfirm() returns (settings: SecuritySettings)
      modifies this
      ensures settings == Settings(old(securityLevel), old(recipientEmail))
      ensures securityLevel == Standard && recipientEmail == "" && !open
    {
      settings := Settings(securityLevel, recipientEmail);
      securityLevel := Standard;
      recipientEmail := "";
      open := false;
    }

    /** A click on the confirm button: it is disabled unless `canConfirm`, and then nothing
        happens. */
    method ClickConfirm() returns (emitted: Option<SecuritySettings>)
      modifies this
      ensures emitted.Some? <==> old(ConfirmEnabled())
      ensures old(ConfirmEnabled()) ==>
        && emitted.value == Settings(old(securityLevel), old(recipientEmail))
        && securityLevel == Standard && recipientEmail == "" && !open
      ensures !old(ConfirmEnabled()) ==>
        securityLevel == old(securityLevel) && recipientEmail == old(recipientEmail) && open == old(open)
    {
      if ConfirmEnabled() {
        var s := HandleConfirm();
        emitted := Some(s);
      } else {
        emitted := None;
      }
    }

    /** The cancel button: `onOpenChange(false)`, leaving level and email as they are. */
    method Cancel()
      modifies this
      ensures !open
      ensures securityLevel == old(securityLevel) && recipientEmail == old(recipientEmail)
    {
      open := false;
    }
  }
}
