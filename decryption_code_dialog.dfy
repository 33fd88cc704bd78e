/**
 * The dialog that asks for a maximum-security file's secondary code before the download
 * goes ahead (src/components/files/DecryptionCodeDialog.tsx). `open` is owned by the parent
 * page; the dialog closes itself through `onOpenChange(false)`, modelled as writing the field.
 */
module DecryptionCodeDialog {
  import opened Text
  import IndexPage

  const InvalidCodeMessage: string := "Invalid decryption code. Please try again."
  /** The `maxLength` of the code input. */
  const CodeLength: nat := 6

  class Dialog {
    /** The `expectedCode` prop, fixed while the dialog is shown. */
    const expectedCode: string
    var code: string
    var error: string
    var emailSent: bool
    var open: bool

    /** The only error the dialog ever shows is the invalid-code message. */
    ghost predicate Valid()
      reads this
    {
      error == "" || error == InvalidCodeMessage
    }

    constructor (expectedCode: string, open: bool)
      ensures Valid()
      ensures this.expectedCode == expectedCode && this.open == open
      ensures code == "" && error == "" && !emailSent
    {
      this.expectedCode := expectedCode;
      this.open := open;
      code := "";
      error := "";
      emailSent := false;
    }

    /** `handleSendCode()`: the code counts as sent and any error is cleared. */
    method HandleSendCode()
      requires Valid()
      modifies this
      ensures Valid()
      ensures emailSent && error == ""
      ensures code == old(code) && open == old(open)
    {
      emailSent := true;
      error := "";
    }

    /** Whether the code input (and the verify button) are on screen. */
    predicate VerifyShown()
      reads this
    {
      emailSent
    }

    /** The code input's `onChange`, present only once the code was sent: at most six
        characters (`maxLength`), upper-cased, and the error cleared. */
    method HandleInput(value: string)
      requires Valid()
      modifies this
      ensures Valid()
      ensures old(VerifyShown()) ==> code == ToUpper(Truncate(value, CodeLength)) && error == ""
      ensures !old(VerifyShown()) ==> code == old(code) && error == old(error)
      ensures emailSent == old(emailSent) && open == old(open)
    {
      if VerifyShown() {
        code := ToUpper(Truncate(value, CodeLength));
        error := "";
      }
    }

    /** `handleVerify()`, returning whether `onSuccess` was called: exactly when the typed code
        equals the expected one, after which the dialog resets and closes; a mismatch only
        shows the error. */
    method HandleVerify() returns (succeeded: bool)
      requires Valid()
      modifies this
      ensures Valid()
      ensures succeeded <==> old(code) == expectedCode
      ensures succeeded ==> code == "" && error == "" && !emailSent && !open
      ensures !succeeded ==> error == InvalidCodeMessage && code == old(code)
                             && emailSent == old(emailSent) && open == old(open)
    {
      if code == expectedCode {
        error := "";
        succeeded := true;
        code := "";
        emailSent := false;
        open := false;
      } else {
        error := InvalidCodeMessage;
        succeeded := false;
      }
    }

    /** Whether the verify button is enabled: shown, and at least six characters typed. */
    predicate VerifyEnabled()
      reads this
      ensures VerifyEnabled() ==> VerifyShown()
    {
      emailSent && |code| >= CodeLength
    }

    /** A click on the verify button, which does nothing unless it is shown and enabled. */
    method ClickVerify() returns (succeeded: bool)
      requires Valid()
      modifies this
      ensures Valid()
      ensures succeeded <==> old(VerifyEnabled()) && old(code) == expectedCode
      ensures succeeded ==> code == "" && error == "" && !emailSent && !open
      ensures !old(VerifyEnabled()) ==> code == old(code) && error == old(error)
                                        && emailSent == old(emailSent) && open == old(open)
      ensures old(VerifyEnabled()) && !succeeded ==>
        error == InvalidCodeMessage && code == old(code) && emailSent == old(emailSent) && open == old(open)
    {
      if VerifyEnabled() {
        succeeded := HandleVerify();
      } else {
        succeeded := false;
      }
    }

    /** `handleClose()`, also the dialog's own `onOpenChange`: reset and close. */
    method HandleClose()
      requires Valid()
      modifies this
      ensures Valid()
      ensures code == "" && error == "" && !emailSent && !open
    {
      code := "";
      error := "";
      emailSent := false;
      open := false;
    }
  }

  /** Whatever case a six-character A-Z0-9 key is typed in, the dialog stores exactly the key. */
  lemma TypedKeyIsStored(key: string, typed: string)
    requires |key| == CodeLength && forall i :: 0 <= i < |key| ==> IndexPage.IsKeyChar(key[i])
    requires typed == key || typed == ToLower(key)
    ensures ToUpper(Truncate(typed, CodeLength)) == key
  {
    assert Truncate(typed, CodeLength) == typed;
    ToUpperFixes(key);
    if typed == ToLower(key) {
      ToUpperOfToLower(key);
    }
  }

  /** A whole session: the dialog for a file whose secondary key was generated from six draws
      is opened, the code sent, the key typed in lower case and verify clicked; `onSuccess`
      is called and the dialog ends closed and reset. */
  method VerifyGeneratedKey(draws: seq<real>) returns (succeeded: bool, stillOpen: bool)
    requires |draws| == 6 && forall i :: 0 <= i < 6 ==> IndexPage.IsDraw(draws[i])
    ensures succeeded && !stillOpen
  {
    var key := IndexPage.GenerateEncryptionKey(draws);
    var dialog := new Dialog(key, true);
    dialog.HandleSendCode();
    TypedKeyIsStored(key, ToLower(key));
    dialog.HandleInput(ToLower(key));
    succeeded := dialog.ClickVerify();
    stillOpen := dialog.open;
  }
}
