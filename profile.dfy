/**
 * The username rules of the initial profile screen: the flag that enables
 * the save button, the checks made when the profile is saved, and the
 * mapping of the server's refusals to the messages shown.
 */
module Profile {
  import opened Common
  import JsString

  /** A character of the class `[a-zA-Z0-9_]`. */
  predicate IsUsernameChar(c: char) {
    ('a' <= c <= 'z') || ('A' <= c <= 'Z') || ('0' <= c <= '9') || c == '_'
  }

  /** `/^[a-zA-Z0-9_]+$/.test(s)`: non-empty and made of username characters only. */
  predicate MatchesUsernamePattern(s: string) {
    |s| > 0 && forall k :: 0 <= k < |s| ==> IsUsernameChar(s[k])
  }

  /** isValid: the trimmed name has at least 3 UTF-16 units and the untrimmed name matches the pattern. */
  predicate IsValid(username: string) {
    JsString.Utf16Length(JsString.Trim(username)) >= 3 && MatchesUsernamePattern(username)
  }

  /** What handleSaveProfile does before any request: show a message, or submit a name. */
  datatype Check = Rejected(message: string) | Submit(customUsername: string)

  const EmptyMessage := "Username cannot be empty"
  const ShortMessage := "Username must be at least 3 characters"
  const CharsetMessage := "Username can only contain letters, numbers, and underscores"

  /**
   * The client-side checks of handleSaveProfile, in order: empty after
   * trimming, then shorter than 3 after trimming, then the character class
   * on the untrimmed name; the first failure is reported and nothing is
   * sent. Otherwise the trimmed name is submitted.
   */
  function CheckUsername(username: string): (r: Check)
    ensures r.Submit? ==> r.customUsername == JsString.Trim(username)
    ensures JsString.Trim(username) == "" ==> r == Rejected(EmptyMessage)
    ensures JsString.Trim(username) != "" && JsString.Utf16Length(JsString.Trim(username)) < 3 ==> r == Rejected(ShortMessage)
    ensures JsString.Utf16Length(JsString.Trim(username)) >= 3 && !MatchesUsernamePattern(username) ==> r == Rejected(CharsetMessage)
  {
    var trimmed := JsString.Trim(username);
    if trimmed == "" then Rejected(EmptyMessage)
    else if JsString.Utf16Length(trimmed) < 3 then Rejected(ShortMessage)
    else if !MatchesUsernamePattern(username) then Rejected(CharsetMessage)
    else Submit(trimmed)
  }

  /** The save button's enable flag and the checks at save time agree. */
  lemma SubmitExactlyWhenValid(username: string)
    ensures CheckUsername(username).Submit? <==> IsValid(username)
  {
  }

  /** No username character is JavaScript whitespace. */
  lemma UsernameCharsAreNotWhitespace(s: string)
    requires MatchesUsernamePattern(s)
    ensures forall k :: 0 <= k < |s| ==> !JsString.IsJsWhitespace(s[k])
  {
    forall k | 0 <= k < |s| ensures !JsString.IsJsWhitespace(s[k]) {
      assert IsUsernameChar(s[k]);
    }
  }

  /** A name of ASCII characters has as many UTF-16 units as characters. */
  lemma {:induction false} Utf16LengthOfUsername(s: string)
    requires forall k :: 0 <= k < |s| ==> IsUsernameChar(s[k])
    ensures JsString.Utf16Length(s) == |s|
  {
    if s != [] {
      Utf16LengthOfUsername(s[1..]);
    }
  }

  /**
   * A submitted name is exactly what was typed: it holds no whitespace, so
   * trimming changes nothing, and it has at least 3 characters.
   */
  lemma SubmittedNameIsTyped(username: string)
    requires CheckUsername(username).Submit?
    ensures CheckUsername(username).customUsername == username
    ensures |username| >= 3
  {
    UsernameCharsAreNotWhitespace(username);
    JsString.TrimOfWhitespaceFree(username);
    Utf16LengthOfUsername(username);
  }

  // ----- the server's refusal -----

  /** `sub` occurs in `s` starting at position `i`. */
  predicate OccursAt(s: string, sub: string, i: int) {
    0 <= i <= |s| - |sub| && s[i..i + |sub|] == sub
  }

  /** `s.includes(sub)`. */
  predicate Contains(s: string, sub: string) {
    exists i :: 0 <= i <= |s| - |sub| && OccursAt(s, sub, i)
  }

  const TakenMessage := "This username is already taken. Please choose another one."
  const EmptyFromServerMessage := "Username cannot be empty. Please enter a valid username."
  const DefaultFailure := "Failed to create username"

  /** A 400 whose error mentions "already taken". */
  predicate IsTakenRefusal(status: nat, error: Option<string>) {
    status == 400 && error.Some? && Contains(error.value, "already taken")
  }

  /**
   * The message shown when /update-profile refuses: a 400 whose error
   * mentions "already taken", else an error mentioning "empty", else the
   * error itself when it is a non-empty string, else the default text.
   */
  function RefusalMessage(status: nat, error: Option<string>): (m: string)
    ensures IsTakenRefusal(status, error) ==> m == TakenMessage
    ensures !IsTakenRefusal(status, error) && error.Some? && Contains(error.value, "empty") ==> m == EmptyFromServerMessage
    ensures !IsTakenRefusal(status, error) && error.Some? && !Contains(error.value, "empty") && error.value != "" ==>
              m == error.value
    ensures error.None? || error == Some("") ==> m == DefaultFailure
    ensures m != ""
  {
    if IsTakenRefusal(status, error) then TakenMessage
    else if error.Some? && Contains(error.value, "empty") then EmptyFromServerMessage
    else if error.Some? && error.value != "" then error.value
    else DefaultFailure
  }

  /** The server's taken-name refusal shows the taken message. */
  lemma TakenRefusal()
    ensures RefusalMessage(400, Some("This username is already taken.")) == TakenMessage
  {
    var e := "This username is already taken.";
    assert OccursAt(e, "already taken", 17);
  }

  /** The server's empty-name refusal shows the empty-name message. */
  lemma EmptyRefusal()
    ensures RefusalMessage(400, Some("Custom username cannot be empty.")) == EmptyFromServerMessage
  {
    var e := "Custom username cannot be empty.";
    assert OccursAt(e, "empty", 26);
    assert 'k' !in e;
    forall i | 0 <= i <= |e| - |"already taken"| ensures !OccursAt(e, "already taken", i) {
      assert e[i..i + |"already taken"|][10] == e[i + 10];
    }
  }
}
