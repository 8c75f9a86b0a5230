/**
 * The browser client's own decisions: the username checks made before a
 * registration request is sent, the content-type to icon classifier, and the payload
 * of a share request (with its refusal of a private share that names nobody).
 * Strings are JavaScript strings, so `length` counts UTF-16 code units and `trim`
 * strips JavaScript white space; DOM access, `fetch` and timers are left out.
 */
module Frontend {
  import opened CppString

  // ---------------------------------------------------------------------------
  // JavaScript string primitives

  /** White space and line terminators as `String.prototype.trim` strips them. */
  predicate IsJsSpace(c: char) {
    c == '\t' || c == '\n' || c == '\U{0B}' || c == '\U{0C}' || c == '\r' || c == ' ' ||
    c == '\U{A0}' || c == '\U{1680}' || ('\U{2000}' <= c <= '\U{200A}') ||
    c == '\U{2028}' || c == '\U{2029}' || c == '\U{202F}' || c == '\U{205F}' ||
    c == '\U{3000}' || c == '\U{FEFF}'
  }

  /** `length` of a JavaScript string: characters outside the BMP take two code units. */
  function Utf16Length(s: string): (n: nat)
    ensures |s| <= n <= 2 * |s|
    ensures n == |s| <==> forall i :: 0 <= i < |s| ==> s[i] as int < 0x1_0000
  {
    if s == [] then 0
    else
      var n := (if s[0] as int < 0x1_0000 then 1 else 2) + Utf16Length(s[1..]);
      assert forall i :: 1 <= i < |s| ==> s[i] == s[1..][i - 1];
      n
  }

  function TrimStart(s: string): (r: string)
    ensures |r| <= |s| && r == s[|s| - |r|..]
    ensures r == [] || !IsJsSpace(r[0])
    ensures forall k :: 0 <= k < |s| - |r| ==> IsJsSpace(s[k])
  {
    if s != [] && IsJsSpace(s[0]) then TrimStart(s[1..]) else s
  }

  function TrimEnd(s: string): (r: string)
    ensures |r| <= |s| && r == s[..|r|]
    ensures r == [] || !IsJsSpace(r[|r| - 1])
    ensures forall k :: |r| <= k < |s| ==> IsJsSpace(s[k])
  {
    if s != [] && IsJsSpace(s[|s| - 1]) then TrimEnd(s[..|s| - 1]) else s
  }

  /** `r` is the slice of `s` from `i` and everything of `s` around it is white space. */
  predicate CoreAt(s: string, r: string, i: int) {
    0 <= i <= |s| - |r| && r == s[i..i + |r|] &&
    (forall k :: 0 <= k < i ==> IsJsSpace(s[k])) &&
    (forall k :: i + |r| <= k < |s| ==> IsJsSpace(s[k]))
  }

  /** `String.prototype.trim`: the input without its leading and trailing white space. */
  function Trim(s: string): (r: string)
    ensures r == [] || (!IsJsSpace(r[0]) && !IsJsSpace(r[|r| - 1]))
    ensures exists i :: CoreAt(s, r, i)
  {
    TrimCore(s);
    TrimEnd(TrimStart(s))
  }

  /** What TrimStart and TrimEnd leave is the slice of `s` between its outer white space. */
  lemma TrimCore(s: string)
    ensures CoreAt(s, TrimEnd(TrimStart(s)), |s| - |TrimStart(s)|)
  {
    CoreBetweenSpaces(s, TrimStart(s), TrimEnd(TrimStart(s)));
  }

  /** A prefix `r` of a suffix `t` of `s`, with only white space cut off either side, is a core of `s`. */
  lemma CoreBetweenSpaces(s: string, t: string, r: string)
    requires |t| <= |s| && t == s[|s| - |t|..] && forall k :: 0 <= k < |s| - |t| ==> IsJsSpace(s[k])
    requires |r| <= |t| && r == t[..|r|] && forall k :: |r| <= k < |t| ==> IsJsSpace(t[k])
    ensures CoreAt(s, r, |s| - |t|)
  {
    var i := |s| - |t|;
    assert r == s[i..i + |r|];
    forall k | i + |r| <= k < |s|
      ensures IsJsSpace(s[k])
    {
      assert s[k] == t[k - i];
    }
  }

  /** Trimming twice changes nothing more than trimming once. */
  lemma TrimIdempotent(s: string)
    ensures Trim(Trim(s)) == Trim(s)
  {
    var r := Trim(s);
    assert TrimStart(r) == r;
    assert TrimEnd(r) == r;
  }

  // ---------------------------------------------------------------------------
  // Username checks of handleRegister

  /** A character of the class `[a-zA-Z0-9_-]`. */
  predicate UsernameChar(c: char) {
    ('a' <= c <= 'z') || ('A' <= c <= 'Z') || ('0' <= c <= '9') || c == '_' || c == '-'
  }

  /** The first failing check, which is the only message shown, or Accepted. */
  datatype UsernameVerdict = TooShort | TooLong | BadCharacters | Accepted

  /**
   * handleRegister's checks on the trimmed user name, in order: fewer than 3 code
   * units, more than 50, then the pattern `^[a-zA-Z0-9_-]+$`. Only Accepted sends
   * the registration request.
   */
  function CheckUsername(input: string): (v: UsernameVerdict)
    ensures v == Accepted <==>
      3 <= |Trim(input)| <= 50 && forall i :: 0 <= i < |Trim(input)| ==> UsernameChar(Trim(input)[i])
    ensures v == TooShort <==> Utf16Length(Trim(input)) < 3
    ensures v == TooLong <==> Utf16Length(Trim(input)) > 50
  {
    var u := Trim(input);
    if Utf16Length(u) < 3 then TooShort
    else if Utf16Length(u) > 50 then TooLong
    else if !(|u| > 0 && forall i :: 0 <= i < |u| ==> UsernameChar(u[i])) then BadCharacters
    else Accepted
  }

  /** A name of exactly 50 allowed characters is accepted, one of 51 is too long. */
  lemma FiftyIsTheLimit(name: string)
    requires 50 <= |name| <= 51
    requires forall i :: 0 <= i < |name| ==> UsernameChar(name[i])
    ensures CheckUsername(name) == if |name| == 50 then Accepted else TooLong
  {
    assert !IsJsSpace(name[0]) && !IsJsSpace(name[|name| - 1]);
    assert TrimStart(name) == name;
    assert TrimEnd(name) == name;
  }

  /**
   * Two characters outside the BMP count as four code units: the length checks
   * pass and the pattern rejects them.
   */
  lemma AstralPairIsBadCharacters(c: char)
    requires c as int >= 0x1_0000
    ensures CheckUsername([c, c]) == BadCharacters
  {
    var s := [c, c];
    assert !IsJsSpace(c);
    assert TrimStart(s) == s;
    assert TrimEnd(s) == s;
    assert Utf16Length(s) == 4 by {
      assert s[1..] == [c];
      assert s[1..][1..] == [];
    }
  }

  // ---------------------------------------------------------------------------
  // getFileIcon

  /** `p` occurs in `s` at position `i`. */
  predicate OccursAt(s: string, p: string, i: int) {
    0 <= i <= |s| - |p| && s[i..i + |p|] == p
  }

  /** `String.prototype.includes`. */
  predicate Includes(s: string, p: string) {
    exists i :: 0 <= i <= |s| - |p| && OccursAt(s, p, i)
  }

  /** getFileIcon: the icon of the first test that holds, in source order. */
  function FileIcon(contentType: string): (icon: string)
    ensures StartsWith(contentType, "image/") ==> icon == "fas fa-image"
    ensures icon == "fas fa-file" ==> !StartsWith(contentType, "text/") && !Includes(contentType, "pdf")
  {
    if StartsWith(contentType, "image/") then "fas fa-image"
    else if StartsWith(contentType, "video/") then "fas fa-video"
    else if StartsWith(contentType, "audio/") then "fas fa-music"
    else if Includes(contentType, "pdf") then "fas fa-file-pdf"
    else if Includes(contentType, "word") then "fas fa-file-word"
    else if Includes(contentType, "excel") || Includes(contentType, "spreadsheet") then "fas fa-file-excel"
    else if Includes(contentType, "powerpoint") || Includes(contentType, "presentation") then "fas fa-file-powerpoint"
    else if StartsWith(contentType, "text/") then "fas fa-file-alt"
    else "fas fa-file"
  }

  /** A test on the content type. */
  datatype Test = HasPrefix(p: string) | HasInfix(p: string)

  /** A rule: the icon shown when any of its tests holds. */
  datatype IconRule = IconRule(anyOf: seq<Test>, icon: string)

  predicate Passes(t: Test, contentType: string) {
    match t
    case HasPrefix(p) => StartsWith(contentType, p)
    case HasInfix(p) => Includes(contentType, p)
  }

  predicate Fires(rule: IconRule, contentType: string) {
    exists i :: 0 <= i < |rule.anyOf| && Passes(rule.anyOf[i], contentType)
  }

  /** The classifier's rules, in source order. */
  const IconRules: seq<IconRule> := [
    IconRule([HasPrefix("image/")], "fas fa-image"),
    IconRule([HasPrefix("video/")], "fas fa-video"),
    IconRule([HasPrefix("audio/")], "fas fa-music"),
    IconRule([HasInfix("pdf")], "fas fa-file-pdf"),
    IconRule([HasInfix("word")], "fas fa-file-word"),
    IconRule([HasInfix("excel"), HasInfix("spreadsheet")], "fas fa-file-excel"),
    IconRule([HasInfix("powerpoint"), HasInfix("presentation")], "fas fa-file-powerpoint"),
    IconRule([HasPrefix("text/")], "fas fa-file-alt")
  ]

  /** The icon of the first rule that fires, or the generic file icon. */
  function FirstIcon(rules: seq<IconRule>, contentType: string): (icon: string)
    ensures (forall i :: 0 <= i < |rules| ==> !Fires(rules[i], contentType)) ==> icon == "fas fa-file"
    ensures forall k :: 0 <= k < |rules| && Fires(rules[k], contentType) ==>
      (exists j :: 0 <= j < k && Fires(rules[j], contentType)) || icon == rules[k].icon
  {
    if rules == [] then "fas fa-file"
    else if Fires(rules[0], contentType) then rules[0].icon
    else
      var icon := FirstIcon(rules[1..], contentType);
      assert forall i :: 1 <= i < |rules| ==> rules[i] == rules[1..][i - 1];
      icon
  }

  /** One step of FirstIcon on a suffix of the table. */
  lemma FirstIconStep(rules: seq<IconRule>, k: int, contentType: string)
    requires 0 <= k < |rules|
    ensures FirstIcon(rules[k..], contentType) ==
      if Fires(rules[k], contentType) then rules[k].icon else FirstIcon(rules[k + 1..], contentType)
  {
    assert rules[k..][0] == rules[k];
    assert rules[k..][1..] == rules[k + 1..];
  }

  /** A rule with one or two tests fires when one of them passes. */
  lemma FiresByTests(rule: IconRule, contentType: string)
    requires 1 <= |rule.anyOf| <= 2
    ensures Fires(rule, contentType) <==>
      Passes(rule.anyOf[0], contentType) || (|rule.anyOf| == 2 && Passes(rule.anyOf[1], contentType))
  {
  }

  /** FirstIcon on a table of eight rules, written out rule by rule. */
  lemma FirstIconOfEight(rules: seq<IconRule>, contentType: string)
    requires |rules| == 8
    ensures FirstIcon(rules, contentType) ==
      if Fires(rules[0], contentType) then rules[0].icon
      else if Fires(rules[1], contentType) then rules[1].icon
      else if Fires(rules[2], contentType) then rules[2].icon
      else if Fires(rules[3], contentType) then rules[3].icon
      else if Fires(rules[4], contentType) then rules[4].icon
      else if Fires(rules[5], contentType) then rules[5].icon
      else if Fires(rules[6], contentType) then rules[6].icon
      else if Fires(rules[7], contentType) then rules[7].icon
      else "fas fa-file"
  {
    assert rules[8..] == [];
    FirstIconStep(rules, 7, contentType);
    FirstIconStep(rules, 6, contentType);
    FirstIconStep(rules, 5, contentType);
    FirstIconStep(rules, 4, contentType);
    FirstIconStep(rules, 3, contentType);
    FirstIconStep(rules, 2, contentType);
    FirstIconStep(rules, 1, contentType);
    FirstIconStep(rules, 0, contentType);
    assert rules[0..] == rules;
  }

  /** What each rule of the table tests, spelled out. */
  lemma IconRulesFire(contentType: string)
    ensures Fires(IconRules[0], contentType) <==> StartsWith(contentType, "image/")
    ensures Fires(IconRules[1], contentType) <==> StartsWith(contentType, "video/")
    ensures Fires(IconRules[2], contentType) <==> StartsWith(contentType, "audio/")
    ensures Fires(IconRules[3], contentType) <==> Includes(contentType, "pdf")
    ensures Fires(IconRules[4], contentType) <==> Includes(contentType, "word")
    ensures Fires(IconRules[5], contentType) <==> Includes(contentType, "excel") || Includes(contentType, "spreadsheet")
    ensures Fires(IconRules[6], contentType) <==> Includes(contentType, "powerpoint") || Includes(contentType, "presentation")
    ensures Fires(IconRules[7], contentType) <==> StartsWith(contentType, "text/")
  {
    var r := IconRules;
    FiresByTests(r[0], contentType);
    FiresByTests(r[1], contentType);
    FiresByTests(r[2], contentType);
    FiresByTests(r[3], contentType);
    FiresByTests(r[4], contentType);
    FiresByTests(r[5], contentType);
    FiresByTests(r[6], contentType);
    FiresByTests(r[7], contentType);
  }

  /** getFileIcon is the rule table read top to bottom, with 'fas fa-file' when none fires. */
  lemma FileIconFollowsTable(contentType: string)
    ensures FileIcon(contentType) == FirstIcon(IconRules, contentType)
  {
    FirstIconOfEight(IconRules, contentType);
    IconRulesFire(contentType);
  }

  /** Order decides: a text type that mentions pdf gets the PDF icon, not the text icon. */
  lemma PdfBeforeText()
    ensures FileIcon("text/x-pdf") == "fas fa-file-pdf"
  {
    var ct := "text/x-pdf";
    assert OccursAt(ct, "pdf", 7);
    assert ct[..6] != "image/" by { assert ct[0] == 't'; }
    assert ct[..6] != "video/" by { assert ct[0] == 't'; }
    assert ct[..6] != "audio/" by { assert ct[0] == 't'; }
  }

  // ---------------------------------------------------------------------------
  // generateShareLink

  /** A JavaScript number as `parseInt` returns it. */
  datatype JsNumber = Int(value: int) | NaN

  /** The JSON body the client posts to /share. */
  datatype SharePayload = SharePayload(fileId: int, expiryHours: string, sharedWithUserId: Option<JsNumber>)

  /**
   * generateShareLink: nothing is sent while no file is selected (null or 0), nor for
   * a private share with an empty user id field; otherwise the payload names the file
   * and the expiry as typed, and carries `parseInt` of the user id for private shares
   * only.
   */
  function ShareRequest(currentFileId: Option<int>, shareType: string, expiryHours: string,
                        sharedUserId: string, parseInt: string -> JsNumber): (r: Option<SharePayload>)
    ensures r.None? <==>
      currentFileId.None? || currentFileId.value == 0 || (shareType == "private" && sharedUserId == "")
    ensures r.Some? ==>
      r.value.fileId == currentFileId.value && r.value.expiryHours == expiryHours &&
      (r.value.sharedWithUserId.Some? <==> shareType == "private")
  {
    if currentFileId.None? || currentFileId.value == 0 then None
    else if shareType == "private" && sharedUserId == "" then None
    else
      var recipient := if shareType == "private" then Some(parseInt(sharedUserId)) else None;
      Some(SharePayload(currentFileId.value, expiryHours, recipient))
  }

  /** A private share that reaches the server always names a recipient typed by the user. */
  lemma PrivateShareNamesSomeone(currentFileId: Option<int>, expiryHours: string, sharedUserId: string,
                                 parseInt: string -> JsNumber)
    requires ShareRequest(currentFileId, "private", expiryHours, sharedUserId, parseInt).Some?
    ensures sharedUserId != ""
    ensures ShareRequest(currentFileId, "private", expiryHours, sharedUserId, parseInt).value.sharedWithUserId ==
      Some(parseInt(sharedUserId))
  {
  }
}
