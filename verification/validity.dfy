/** The console's validity toggle: which user or idea update `setValidity`
    asks the database for, given the entity choice and the two lines typed
    after it. The update itself belongs to the database layer and is kept
    abstract: the model yields the call that is made, if any. */
module Validity {
  import opened Wrappers
  import opened Console

  /** The entity choices of the validity menu. */
  const ValidEntities: string := "UI"
  const SetInvalid: string := "Invalidate"
  const SetValid: string := "Restore"

  /** Java's `Character.toUpperCase`, on the characters that matter when the
      other side of a comparison is ASCII: the ASCII letters, dotless i
      (U+0131) and long s (U+017F). */
  function UpperCase(c: char): char
  {
    if 'a' <= c <= 'z' then (c as int - 32) as char
    else if c == '\U{131}' then 'I'
    else if c == '\U{17F}' then 'S'
    else c
  }

  /** Java's `Character.toLowerCase`, on the ASCII letters, capital I with dot
      (U+0130) and the Kelvin sign (U+212A). */
  function LowerCase(c: char): char
  {
    if 'A' <= c <= 'Z' then (c as int + 32) as char
    else if c == '\U{130}' then 'i'
    else if c == '\U{212A}' then 'k'
    else c
  }

  /** Java's `String.equalsIgnoreCase`: equal lengths and, position by
      position, equal characters, equal upper cases, or equal lower cases of
      the upper cases. Exact whenever one side is ASCII. */
  predicate SameIgnoringCase(a: string, b: string)
  {
    && |a| == |b|
    && forall k :: 0 <= k < |a| ==>
         a[k] == b[k] || UpperCase(a[k]) == UpperCase(b[k])
         || LowerCase(UpperCase(a[k])) == LowerCase(UpperCase(b[k]))
  }

  /** The validity directive: "Invalidate" means false, "Restore" means true,
      both in any case; anything else is unrecognised. */
  function ParseDirective(s: string): Option<bool>
  {
    if SameIgnoringCase(s, SetInvalid) then Some(false)
    else if SameIgnoringCase(s, SetValid) then Some(true)
    else None
  }

  /** The database call `setValidity` ends in. `UpdateUser` carries `None` for
      a `null` id; `Crash` is the `NullPointerException` raised when the
      directive read returns `null`. */
  datatype Request =
    | UpdateUser(userId: Option<string>, valid: bool)
    | UpdateIdea(ideaId: int, valid: bool)
    | NoUpdate
    | Crash

  /** What the two reads inside the `try` block leave behind: the id (`None`
      for `null`) and the directive (`None` when it was not read, failed to
      read or was not recognised), or a `null` directive. */
  datatype Inputs = Inputs(id: Option<string>, directive: Option<bool>) | NullDirective

  function ReadInputs(idLine: Line, directiveLine: Line): Inputs
  {
    match idLine
    case ReadError => Inputs(Some(""), None)
    case _ =>
      var id := if idLine.Text? then Some(idLine.s) else None;
      match directiveLine
      case Text(d) => Inputs(id, ParseDirective(d))
      case ReadError => Inputs(id, None)
      case EndOfInput => NullDirective
  }

  /** The branch on the entity choice: users by their raw id, ideas only when
      the id parses as an integer (`parseInt(null)` fails too). */
  function Dispatch(entity: char, id: Option<string>, valid: bool): Request
  {
    if entity == 'U' then UpdateUser(id, valid)
    else if entity == 'I' then
      if id.Some? && ParseInt(id.value).Some? then UpdateIdea(ParseInt(id.value).value, valid)
      else NoUpdate
    else NoUpdate
  }

  /** The directive line was read and names one of the two directives. */
  predicate Recognised(idLine: Line, directiveLine: Line)
  {
    !idLine.ReadError? && directiveLine.Text? && ParseDirective(directiveLine.s).Some?
  }

  /** `setValidity` as written: an unread or unrecognised directive leaves
      `updatedValidity` at its initial `true` and the update still goes ahead. */
  function SetValidity(entity: char, idLine: Line, directiveLine: Line): (r: Request)
    ensures r.Crash? <==> !idLine.ReadError? && directiveLine.EndOfInput?
    ensures r.UpdateUser? ==> entity == 'U'
    ensures r.UpdateUser? && idLine.Text? ==> r.userId == Some(idLine.s)
    ensures r.UpdateUser? && idLine.ReadError? ==> r.userId == Some("")
    ensures r.UpdateUser? && idLine.EndOfInput? ==> r.userId.None?
    ensures r.UpdateIdea? ==> entity == 'I' && idLine.Text? && ParseInt(idLine.s) == Some(r.ideaId)
    ensures entity == 'U' && !r.Crash? ==> r.UpdateUser?
    ensures entity == 'I' && idLine.Text? && ParseInt(idLine.s).Some? && !r.Crash? ==> r.UpdateIdea?
    ensures entity != 'U' && entity != 'I' ==> r.NoUpdate? || r.Crash?
    ensures r.UpdateUser? || r.UpdateIdea? ==>
              if Recognised(idLine, directiveLine) then r.valid == ParseDirective(directiveLine.s).value
              else r.valid
  {
    match ReadInputs(idLine, directiveLine)
    case NullDirective => Crash
    case Inputs(id, directive) => Dispatch(entity, id, directive.GetOr(true))
  }

  /** `setValidity` as its message says it behaves: without a recognised
      directive it cancels and updates nothing. */
  function SetValidityChecked(entity: char, idLine: Line, directiveLine: Line): (r: Request)
    ensures r.UpdateUser? || r.UpdateIdea? ==>
              Recognised(idLine, directiveLine) && ParseDirective(directiveLine.s) == Some(r.valid)
  {
    match ReadInputs(idLine, directiveLine)
    case NullDirective => Crash
    case Inputs(_, None) => NoUpdate
    case Inputs(id, Some(valid)) => Dispatch(entity, id, valid)
  }

  /** The count `setValidity` prints: what the database reported for the call
      it made, 0 when it made none, and nothing when it crashed. */
  function EntitiesChanged(r: Request, reported: int): Option<int>
  {
    match r
    case Crash => None
    case NoUpdate => Some(0)
    case _ => Some(reported)
  }

  // ---------------------------------------------------------------------------
  // Directives

  /** Lower case of upper case: the key Java's case-insensitive comparison
      effectively compares on. */
  function Fold(c: char): char
  {
    LowerCase(UpperCase(c))
  }

  /** Against an ASCII letter, a character compares equal ignoring case exactly
      when it is that letter in either case, or one of the non-ASCII letters
      Java folds onto it: dotless i and capital I with dot onto i, long s onto
      s, the Kelvin sign onto k. */
  lemma FoldOntoAsciiLetter(a: char, b: char)
    requires 'a' <= b <= 'z' || 'A' <= b <= 'Z'
    ensures Fold(a) == Fold(b) <==>
              || a == LowerCase(b) || a == UpperCase(b)
              || (LowerCase(b) == 'i' && (a == '\U{131}' || a == '\U{130}'))
              || (LowerCase(b) == 's' && a == '\U{17F}')
              || (LowerCase(b) == 'k' && a == '\U{212A}')
  {
  }

  /** `s` spells `w` with each letter in either case. */
  predicate CaseVariant(s: string, w: string)
  {
    |s| == |w| && forall k :: 0 <= k < |s| ==> s[k] == UpperCase(w[k]) || s[k] == LowerCase(w[k])
  }

  /** "Invalidate" in any mix of cases means false, "Restore" in any mix of
      cases means true. */
  lemma DirectiveAnyCase(s: string)
    ensures CaseVariant(s, SetInvalid) ==> ParseDirective(s) == Some(false)
    ensures CaseVariant(s, SetValid) ==> ParseDirective(s) == Some(true)
  {
  }

  /** On ASCII input the directive is recognised only when it spells one of
      the two words with each letter in either case. */
  lemma DirectiveRecognisedOnlyByName(s: string)
    requires forall k :: 0 <= k < |s| ==> (s[k] as int) < 128
    ensures ParseDirective(s) == Some(false) ==> CaseVariant(s, SetInvalid)
    ensures ParseDirective(s) == Some(true) ==> CaseVariant(s, SetValid)
    ensures !CaseVariant(s, SetInvalid) && !CaseVariant(s, SetValid) ==> ParseDirective(s).None?
  {
  }

  /** Java's case rules also let dotless i stand for I. */
  lemma DirectiveDotlessI()
    ensures ParseDirective("\U{131}NVALIDATE") == Some(false)
    ensures ParseDirective("restore") == Some(true)
    ensures ParseDirective("Cancel") == None
  {
    assert SameIgnoringCase("\U{131}NVALIDATE", SetInvalid);
    assert SameIgnoringCase("restore", SetValid);
  }

  // ---------------------------------------------------------------------------
  // Ids

  /** After a choice `prompt` accepts for the validity menu, the only way no
      update is asked for (short of a crash) is an idea id that does not parse
      as a 32-bit integer; a user choice always updates or crashes. */
  lemma MenuChoiceUpdatesUnlessBadIdeaId(line: Line, idLine: Line, directiveLine: Line)
    requires Accepts(line, ValidEntities)
    ensures line.s[0] == 'U' || line.s[0] == 'I'
    ensures SetValidity(line.s[0], idLine, directiveLine).NoUpdate? ==>
              line.s[0] == 'I' && !(idLine.Text? && ParseInt(idLine.s).Some?)
  {
  }

  /** An idea id that is not a 32-bit integer means no update call and a
      printed count of 0, whatever the directive (short of a `null` one). */
  lemma NonNumericIdeaIdChangesNothing(s: string, directiveLine: Line, reported: int)
    requires ParseInt(s).None? && !directiveLine.EndOfInput?
    ensures SetValidity('I', Text(s), directiveLine) == NoUpdate
    ensures EntitiesChanged(SetValidity('I', Text(s), directiveLine), reported) == Some(0)
  {
  }

  /** A failed id read leaves the id empty: for an idea nothing is updated, for
      a user the empty id is restored. */
  lemma IdReadErrorDefaults(directiveLine: Line)
    ensures SetValidity('I', ReadError, directiveLine) == NoUpdate
    ensures SetValidity('U', ReadError, directiveLine) == UpdateUser(Some(""), true)
  {
  }

  // ---------------------------------------------------------------------------
  // The cancel message

  /** As written, an unrecognised directive is announced as a cancellation but
      the entity is still set to valid. */
  lemma UnknownDirectiveStillUpdates()
    ensures SetValidity('U', Text("alice"), Text("Cancel")) == UpdateUser(Some("alice"), true)
    ensures SetValidity('I', Text("7"), Text("Cancel")) == UpdateIdea(7, true)
  {
    assert ParseDirective("Cancel") == None by { DirectiveDotlessI(); }
    assert ParseInt("7") == Some(7) by { ParseShow(7); assert Show(7) == "7"; }
  }

  /** The checked version cancels on any directive it does not recognise, and
      agrees with the code as written whenever the directive is recognised. */
  lemma CheckedCancelsUnknownDirective(entity: char, idLine: Line, directiveLine: Line)
    ensures !Recognised(idLine, directiveLine) && !SetValidityChecked(entity, idLine, directiveLine).Crash?
            ==> SetValidityChecked(entity, idLine, directiveLine) == NoUpdate
    ensures Recognised(idLine, directiveLine)
            ==> SetValidityChecked(entity, idLine, directiveLine) == SetValidity(entity, idLine, directiveLine)
  {
  }
}
