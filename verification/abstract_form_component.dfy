/** The base form controller `AbstractFormComponent`: a form tree, the
    submit-button flag, the error message and the success flag, with the
    validity query, the cancel and submit transitions and the HTTP error
    classification. Every operation is a pure function from the component
    before the call to the component after it. */
module AbstractFormComponent {
  import opened Wrappers
  import opened Controls

  /** The fallback error message when the constructor is given none. */
  const DefaultErrorMsg: string := "Operation failed, please try again shortly."

  /** The two parts of Angular's `HttpErrorResponse` that the component reads. */
  datatype HttpErrorResponse = HttpErrorResponse(status: int, error: string)

  /** The component's state. `form` is None until the concrete form assigns
      its tree; `errorMessage` is None both while it is still `undefined`
      and once it has been set to `null`. `withRecaptcha` and `errorMsg`
      are the constructor's arguments. */
  datatype Component = Component(
    form: Option<Control>,
    submitButtonDisabled: bool,
    errorMessage: Option<string>,
    showSuccessMessage: bool,
    withRecaptcha: bool,
    errorMsg: string)

  /** The end of a call that may raise a JavaScript `TypeError`: either it
      completed, or it threw, leaving the component as it was at the throw. */
  datatype Outcome = Completed(state: Component) | Threw(state: Component)

  /** The result of a query that may raise a JavaScript `TypeError`. */
  datatype Answer<+T> = Returned(value: T) | ThrewTypeError

  // ---------------------------------------------------------------------
  // Construction
  // ---------------------------------------------------------------------

  /** The constructor; `errorMsg` None stands for the omitted argument. */
  function New(withRecaptcha: bool, errorMsg: Option<string>): (r: Component)
    ensures r.form.None?
    ensures !r.submitButtonDisabled && r.errorMessage.None? && !r.showSuccessMessage
    ensures r.withRecaptcha == withRecaptcha
    ensures errorMsg.None? ==> r.errorMsg == "Operation failed, please try again shortly."
    ensures errorMsg.Some? ==> r.errorMsg == errorMsg.value
  {
    Component(None, false, None, false, withRecaptcha, if errorMsg.Some? then errorMsg.value else DefaultErrorMsg)
  }

  /** The concrete form assigning its tree to `form` during its own setup. */
  function WithForm(c: Component, tree: Control): Component
  {
    c.(form := Some(tree))
  }

  // ---------------------------------------------------------------------
  // Lookup
  // ---------------------------------------------------------------------

  /** JavaScript truthiness of an optional string: defined and not empty. */
  predicate IsTruthy(s: Option<string>)
  {
    s.Some? && s.value != ""
  }

  /** `getFormArray(name)`: the root's member `name`, cast without any check
      of its kind. `Returned(None)` is the `null` Angular returns for a
      missing name; without a tree, `this.form.get` throws. */
  function GetFormArray(c: Component, name: string): (r: Answer<Option<Control>>)
    ensures r.ThrewTypeError? <==> c.form.None?
    ensures r.Returned? ==> (r.value.Some? <==> c.form.value.FormGroup? && name in c.form.value.members)
    ensures r.Returned? && r.value.Some? ==> r.value.value == c.form.value.members[name]
  {
    if c.form.None? then ThrewTypeError else Returned(Get(c.form.value, name))
  }

  /** `getFormGroup(name)`: the same unchecked lookup as `getFormArray`, so
      asking for a group or for an array of a given name reaches the same
      node, whatever its kind. */
  function GetFormGroup(c: Component, name: string): (r: Answer<Option<Control>>)
    ensures r == GetFormArray(c, name)
  {
    if c.form.None? then ThrewTypeError else Returned(Get(c.form.value, name))
  }

  /** The private `getControl`: None where the source yields `undefined`
      or throws on the way (no tree, a missing name, an index out of range,
      a node of another kind than the route expects); `isInvalid` throws
      on both. Otherwise the node at the end of the query's route. */
  function GetControl(c: Component, ctrlName: string, parent: Option<string>, index: Option<int>): (r: Option<Control>)
    ensures c.form.None? ==> r.None?
    ensures c.form.Some? ==> r == Resolve(c.form.value, Route(ctrlName, parent, index))
  {
    if c.form.None? then None
    else
      var root := c.form.value;
      var path := Route(ctrlName, parent, index);
      assert Get(root, ctrlName) == Resolve(root, [Key(ctrlName)]);
      if IsTruthy(parent) && index.Some? then
        assert path[1..] == [At(index.value), Key(ctrlName)] && path[1..][1..] == [Key(ctrlName)];
        match GetFormArray(c, parent.value)
        case ThrewTypeError => None
        case Returned(None) => None
        case Returned(Some(formArray)) =>
          if formArray.FormArray? && 0 <= index.value < |formArray.items| then
            var fromGroup := formArray.items[index.value];
            assert Get(fromGroup, ctrlName) == Resolve(fromGroup, [Key(ctrlName)]);
            if fromGroup.FormGroup? && ctrlName in fromGroup.members
            then Some(fromGroup.members[ctrlName])
            else None
          else None
      else if IsTruthy(parent) then
        assert path[1..] == [Key(ctrlName)];
        match GetFormGroup(c, parent.value)
        case ThrewTypeError => None
        case Returned(None) => None
        case Returned(Some(fromGroup)) =>
          assert Get(fromGroup, ctrlName) == Resolve(fromGroup, [Key(ctrlName)]);
          if fromGroup.FormGroup? && ctrlName in fromGroup.members
          then Some(fromGroup.members[ctrlName])
          else None
      else
        Get(root, ctrlName)
  }

  /** The path below the root that a `(ctrlName, parent, index)` query
      designates. */
  function Route(ctrlName: string, parent: Option<string>, index: Option<int>): seq<Step>
  {
    if IsTruthy(parent) && index.Some? then [Key(parent.value), At(index.value), Key(ctrlName)]
    else if IsTruthy(parent) then [Key(parent.value), Key(ctrlName)]
    else [Key(ctrlName)]
  }

  /** The three routes of `getControl`: array element then member, group
      then member, or a member of the root. */
  lemma GetControlRoutes(c: Component, ctrlName: string, parent: Option<string>, index: Option<int>)
    requires c.form.Some?
    ensures IsTruthy(parent) && index.Some? ==>
      GetControl(c, ctrlName, parent, index)
        == Resolve(c.form.value, [Key(parent.value), At(index.value), Key(ctrlName)])
    ensures IsTruthy(parent) && index.None? ==>
      GetControl(c, ctrlName, parent, index) == Resolve(c.form.value, [Key(parent.value), Key(ctrlName)])
    ensures !IsTruthy(parent) ==>
      GetControl(c, ctrlName, parent, index) == Resolve(c.form.value, [Key(ctrlName)])
  {
  }

  /** `isInvalid` on the node a query reaches: invalid, and touched or dirty. */
  predicate ShowsInvalid(n: Control)
  {
    Invalid(n) && (Touched(n) || Dirty(n))
  }

  /** `isInvalid(ctrlName, parent, index)`; None when the call throws
      (no form yet, or the query reaches no control). */
  function IsInvalid(c: Component, ctrlName: string, parent: Option<string>, index: Option<int>): (r: Option<bool>)
    ensures r.Some? <==> c.form.Some? && Resolve(c.form.value, Route(ctrlName, parent, index)).Some?
    ensures r.Some? ==> r.value == ShowsInvalid(Resolve(c.form.value, Route(ctrlName, parent, index)).value)
  {
    match GetControl(c, ctrlName, parent, index)
    case None => None
    case Some(control) => Some(ShowsInvalid(control))
  }

  // ---------------------------------------------------------------------
  // Lifecycle
  // ---------------------------------------------------------------------

  /** `onCancel()`: resets the tree and clears both messages; the submit
      button is left as it is. Without a tree, `reset()` throws first and
      nothing changes. */
  function OnCancel(c: Component): (r: Outcome)
    ensures c.form.None? ==> r == Threw(c)
    ensures c.form.Some? ==> r.Completed?
    ensures c.form.Some? ==>
      && r.state.form.Some?
      && SameShape(c.form.value, r.state.form.value)
      && !Touched(r.state.form.value)
      && !Dirty(r.state.form.value)
      && SamePaths(c.form.value, r.state.form.value)
      && LeavesBecome(c.form.value, r.state.form.value, ResetLeaf)
    ensures r.Completed? ==> r.state.errorMessage.None? && !r.state.showSuccessMessage
    ensures r.state.submitButtonDisabled == c.submitButtonDisabled
    ensures r.state.withRecaptcha == c.withRecaptcha && r.state.errorMsg == c.errorMsg
  {
    if c.form.None? then Threw(c)
    else
      Completed(c.(form := Some(Reset(c.form.value)), errorMessage := None, showSuccessMessage := false))
  }

  /** `onSubmit()`: disables the submit button, clears both messages and
      marks every control touched. The three assignments come before
      `markAllAsTouched()`, so without a tree they happen and then the call
      throws. */
  function OnSubmit(c: Component): (r: Outcome)
    ensures r.state.submitButtonDisabled
    ensures r.state.errorMessage.None? && !r.state.showSuccessMessage
    ensures r.state.withRecaptcha == c.withRecaptcha && r.state.errorMsg == c.errorMsg
    ensures r.Completed? <==> c.form.Some?
    ensures c.form.None? ==> r.state.form.None?
    ensures c.form.Some? ==>
      && r.state.form.Some?
      && SameShape(c.form.value, r.state.form.value)
      && AllTouched(r.state.form.value)
      && Dirty(r.state.form.value) == Dirty(c.form.value)
      && Invalid(r.state.form.value) == Invalid(c.form.value)
      && SamePaths(c.form.value, r.state.form.value)
      && LeavesBecome(c.form.value, r.state.form.value, TouchLeaf)
  {
    var c' := c.(submitButtonDisabled := true, errorMessage := None, showSuccessMessage := false);
    if c'.form.None? then Threw(c')
    else Completed(c'.(form := Some(MarkAllAsTouched(c'.form.value))))
  }

  // ---------------------------------------------------------------------
  // Error classification
  // ---------------------------------------------------------------------

  /** The status range the component surfaces verbatim. */
  predicate IsClientError(status: int)
  {
    status >= 400 && status <= 499
  }

  /** `handleError(error)`: re-enables the submit button and records the
      server's message for a 4xx status, the fallback message otherwise.
      The tree and the success flag are untouched. */
  function HandleError(c: Component, error: HttpErrorResponse): (r: Component)
    ensures !r.submitButtonDisabled
    ensures r.errorMessage.Some?
    ensures 400 <= error.status <= 499 ==> r.errorMessage.value == error.error
    ensures !(400 <= error.status <= 499) ==> r.errorMessage.value == c.errorMsg
    ensures r.form == c.form && r.showSuccessMessage == c.showSuccessMessage
    ensures r.withRecaptcha == c.withRecaptcha && r.errorMsg == c.errorMsg
  {
    var c' := c.(submitButtonDisabled := false);
    if IsClientError(error.status) then c'.(errorMessage := Some(error.error))
    else c'.(errorMessage := Some(c'.errorMsg))
  }

  // ---------------------------------------------------------------------
  // Properties of the validity query
  // ---------------------------------------------------------------------

  /** On a leaf control, `isInvalid` is "fails validation, and touched or
      dirty". */
  lemma IsInvalidOnLeaf(c: Component, ctrlName: string, parent: Option<string>, index: Option<int>, l: Leaf)
    requires c.form.Some?
    requires Resolve(c.form.value, Route(ctrlName, parent, index)) == Some(FormControl(l))
    ensures IsInvalid(c, ctrlName, parent, index) == Some(!l.valid && (l.touched || l.dirty))
  {
  }

  /** A control that is neither touched nor dirty is never reported
      invalid, whatever its validators say. */
  lemma PristineNeverInvalid(c: Component, ctrlName: string, parent: Option<string>, index: Option<int>)
    requires c.form.Some?
    requires Resolve(c.form.value, Route(ctrlName, parent, index)).Some?
    requires !Touched(Resolve(c.form.value, Route(ctrlName, parent, index)).value)
    requires !Dirty(Resolve(c.form.value, Route(ctrlName, parent, index)).value)
    ensures IsInvalid(c, ctrlName, parent, index) == Some(false)
  {
  }

  /** The query reaches the very control that direct navigation of the tree
      reaches: setting the flags of that control through the tree changes
      the query's answer to "fails validation, and touched or dirty" under
      the new flags. */
  lemma {:induction false} QuerySeesDirectUpdate(c: Component, ctrlName: string, parent: Option<string>, index: Option<int>, touched: bool, dirty: bool)
    requires c.form.Some?
    requires Resolve(c.form.value, Route(ctrlName, parent, index)).Some?
    requires Resolve(c.form.value, Route(ctrlName, parent, index)).value.FormControl?
    ensures
      var path := Route(ctrlName, parent, index);
      var l := Resolve(c.form.value, path).value.leaf;
      var c' := c.(form := Some(UpdateAt(c.form.value, path, SetInteraction(touched, dirty))));
      IsInvalid(c', ctrlName, parent, index) == Some(!l.valid && (touched || dirty))
  {
    var path := Route(ctrlName, parent, index);
    ResolveUpdateAt(c.form.value, path, SetInteraction(touched, dirty));
  }

  // ---------------------------------------------------------------------
  // Properties of the lifecycle
  // ---------------------------------------------------------------------

  /** After `onCancel()` every query that reached a control before still
      reaches one, and reports it valid; no other query starts resolving. */
  lemma {:induction false} CancelClearsEveryQuery(c: Component, ctrlName: string, parent: Option<string>, index: Option<int>)
    requires c.form.Some?
    ensures Resolve(c.form.value, Route(ctrlName, parent, index)).Some? ==>
      IsInvalid(OnCancel(c).state, ctrlName, parent, index) == Some(false)
    ensures Resolve(c.form.value, Route(ctrlName, parent, index)).None? ==>
      IsInvalid(OnCancel(c).state, ctrlName, parent, index).None?
  {
    var path := Route(ctrlName, parent, index);
    ResolveMapLeaves(c.form.value, path, ResetLeaf);
    if Resolve(c.form.value, path).Some? {
      var n := Resolve(c.form.value, path).value;
      assert Reset(n) == MapLeaves(n, ResetLeaf);
    }
  }

  /** Cancelling twice is cancelling once. */
  lemma CancelIdempotent(c: Component)
    requires c.form.Some?
    ensures OnCancel(OnCancel(c).state) == OnCancel(c)
  {
    ResetIdempotent(c.form.value);
  }

  /** `onCancel()` wins over any touch or edit made before it: changing the
      flags or the validity of any control first leaves the cancelled
      component as it was. */
  lemma CancelWinsOverInteraction(c: Component, path: seq<Step>, touched: bool, dirty: bool, valid: bool)
    requires c.form.Some?
    ensures OnCancel(c.(form := Some(UpdateAt(c.form.value, path, EditControl(touched, dirty, valid))))) == OnCancel(c)
  {
    ResetIgnoresInteraction(c.form.value, path, touched, dirty, valid);
  }

  /** After `onSubmit()` every query that reaches a control reports exactly
      whether that control fails validation. */
  lemma {:induction false} SubmitRevealsValidity(c: Component, ctrlName: string, parent: Option<string>, index: Option<int>)
    requires c.form.Some?
    requires Resolve(c.form.value, Route(ctrlName, parent, index)).Some?
    ensures IsInvalid(OnSubmit(c).state, ctrlName, parent, index)
      == Some(Invalid(Resolve(c.form.value, Route(ctrlName, parent, index)).value))
  {
    var path := Route(ctrlName, parent, index);
    var n := Resolve(c.form.value, path).value;
    ResolveMapLeaves(c.form.value, path, TouchLeaf);
    assert MarkAllAsTouched(n) == MapLeaves(n, TouchLeaf);
    if Invalid(n) {
      InvalidAllTouchedIsTouched(MarkAllAsTouched(n));
    }
  }

  /** `onSubmit()` then `onCancel()` is `onCancel()` alone, except that the
      submit button stays disabled: cancelling does not re-enable it. */
  lemma SubmitThenCancel(c: Component)
    requires c.form.Some?
    ensures OnCancel(OnSubmit(c).state) == Completed(OnCancel(c).state.(submitButtonDisabled := true))
  {
    ResetAfterMarkAllAsTouched(c.form.value);
  }

  // ---------------------------------------------------------------------
  // Properties of the error classification
  // ---------------------------------------------------------------------

  /** The verbatim range is exactly the 4xx status class of HTTP
      (section 15.5 of RFC 9110), the three-digit codes 4xx; over all
      integers, the statuses whose quotient by 100 is 4. */
  lemma ClientErrorIsStatusClass4xx(status: int)
    ensures IsClientError(status) <==> status / 100 == 4
  {
  }

  /** The boundaries of the verbatim range: 400 and 499 are inside, 399 and
      500 are not. */
  lemma HandleErrorBoundaries(c: Component, error: string)
    ensures HandleError(c, HttpErrorResponse(400, error)).errorMessage == Some(error)
    ensures HandleError(c, HttpErrorResponse(499, error)).errorMessage == Some(error)
    ensures HandleError(c, HttpErrorResponse(399, error)).errorMessage == Some(c.errorMsg)
    ensures HandleError(c, HttpErrorResponse(500, error)).errorMessage == Some(c.errorMsg)
  {
  }

  /** A submit that fails: the button is enabled again, an error message is
      shown, no success message is, and the tree is the submitted one. */
  lemma SubmitThenError(c: Component, error: HttpErrorResponse)
    requires c.form.Some?
    ensures
      var submitted := OnSubmit(c).state;
      var failed := HandleError(submitted, error);
      && !failed.submitButtonDisabled
      && failed.errorMessage.Some?
      && !failed.showSuccessMessage
      && failed.form == submitted.form
  {
  }

  /** `withRecaptcha` is stored and never read: two components that differ
      only in it answer every query alike and stay alike through every
      transition. */
  lemma RecaptchaIsInert(c: Component, b: bool, ctrlName: string, parent: Option<string>, index: Option<int>, error: HttpErrorResponse)
    ensures
      var c' := c.(withRecaptcha := b);
      && IsInvalid(c', ctrlName, parent, index) == IsInvalid(c, ctrlName, parent, index)
      && OnCancel(c').state == OnCancel(c).state.(withRecaptcha := b)
      && OnSubmit(c').state == OnSubmit(c).state.(withRecaptcha := b)
      && HandleError(c', error) == HandleError(c, error).(withRecaptcha := b)
  {
  }

  // ---------------------------------------------------------------------
  // The form used by the component's own tests
  // ---------------------------------------------------------------------

  /** A pristine leaf whose value fails its validators, both now and after
      a reset (an empty or null value under `required` and `minLength(5)`). */
  const EmptyRequired: Control := FormControl(Leaf(false, false, false, false))

  /** A root field `comp`, a group `group` with field `groupelement`, and an
      array `arr` whose one element is a group with field `arrelement`. */
  function TestForm(): Control
  {
    FormGroup(map[
      "comp" := EmptyRequired,
      "group" := FormGroup(map["groupelement" := EmptyRequired]),
      "arr" := FormArray([FormGroup(map["arrelement" := EmptyRequired])])])
  }

  /** The three kinds of query on the test form: all report valid at first,
      all report invalid after `onSubmit()`. */
  lemma TestFormQueries()
    ensures
      var c := WithForm(New(true, Some("Generic error message")), TestForm());
      && IsInvalid(c, "comp", None, None) == Some(false)
      && IsInvalid(c, "groupelement", Some("group"), None) == Some(false)
      && IsInvalid(c, "arrelement", Some("arr"), Some(0)) == Some(false)
      && IsInvalid(OnSubmit(c).state, "comp", None, None) == Some(true)
      && IsInvalid(OnSubmit(c).state, "groupelement", Some("group"), None) == Some(true)
      && IsInvalid(OnSubmit(c).state, "arrelement", Some("arr"), Some(0)) == Some(true)
  {
    var c := WithForm(New(true, Some("Generic error message")), TestForm());
    var group := FormGroup(map["groupelement" := EmptyRequired]);
    var element := FormGroup(map["arrelement" := EmptyRequired]);
    assert GetFormGroup(c, "group") == Returned(Some(group));
    assert GetFormArray(c, "arr") == Returned(Some(FormArray([element])));
    GetControlRoutes(c, "comp", None, None);
    GetControlRoutes(c, "groupelement", Some("group"), None);
    GetControlRoutes(c, "arrelement", Some("arr"), Some(0));
    PristineNeverInvalid(c, "comp", None, None);
    PristineNeverInvalid(c, "groupelement", Some("group"), None);
    PristineNeverInvalid(c, "arrelement", Some("arr"), Some(0));
    SubmitRevealsValidity(c, "comp", None, None);
    SubmitRevealsValidity(c, "groupelement", Some("group"), None);
    SubmitRevealsValidity(c, "arrelement", Some("arr"), Some(0));
  }

  /** The error scenario of the component's tests: 404 shows the server's
      text, 500 the configured fallback, and the button is enabled again. */
  lemma TestFormErrors()
    ensures
      var c := New(true, Some("Generic error message")).(submitButtonDisabled := true);
      var c1 := HandleError(c, HttpErrorResponse(404, "Not found"));
      var c2 := HandleError(c1, HttpErrorResponse(500, "Server error"));
      && !c1.submitButtonDisabled
      && c1.errorMessage == Some("Not found")
      && c2.errorMessage == Some("Generic error message")
  {
  }
}
