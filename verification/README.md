# ngx-form `AbstractFormComponent` in Dafny

A model of the base form component of the `ngx-form` Angular library. A
concrete form extends `AbstractFormComponent`, assigns its reactive-forms
tree to `form`, and inherits:

- the validity query `isInvalid(ctrlName, parent?, index?)`, which finds a
  control at the root, inside a named group, or inside the element at an index
  of a named array, and reports it invalid only once it is touched or dirty;
- the lifecycle transitions `onCancel()` (reset the tree, clear the messages)
  and `onSubmit()` (disable the submit button, clear the messages, mark every
  control touched);
- `handleError(error)`, which re-enables the submit button and shows the
  server's text for a 4xx status and the configured fallback message for any
  other status.

Files:

- `wrappers.dfy` (module `Wrappers`): the `Option` type used for `null`,
  `undefined` and omitted arguments.
- `controls.dfy` (module `Controls`): the Angular control tree as a datatype
  (`FormControl` leaf, `FormGroup` with named members, `FormArray` with indexed
  items). It holds the aggregate `touched`/`dirty`/`invalid` flags Angular
  keeps for groups and arrays, and `get`, `reset()`, `markAllAsTouched()` and
  path navigation, with their lemmas.
- `abstract_form_component.dfy` (module `AbstractFormComponent`): the
  component state and its operations, each a pure function from the state
  before a call to the state after it. It also holds the lemmas relating the
  operations, and the form and scenarios of the component's own tests.

A call that would raise a JavaScript `TypeError` is modelled, not excluded.
`getFormArray` and `getFormGroup` yield `ThrewTypeError` when there is no tree
yet, and `Returned(None)` for the `null` of a missing name. `isInvalid` yields
`None` when it throws. `onCancel` and `onSubmit` yield
`Threw(state)`, where `state` is the component as the throw left it:
`onSubmit` sets its three fields before `markAllAsTouched()` fails on a missing
tree, while `onCancel` fails before changing anything.

`getFormArray` and `getFormGroup` do not check the kind of control they
return; each is a plain `form.get(name)` with an unchecked cast. A lookup that
reaches a node of the wrong kind therefore has no error of its own; it fails
only at the next step, as `undefined` or a `TypeError`.

## Model

| member | source | states |
|---|---|---|
| AbstractFormComponent.New | projects/rahimalizada/ngx-form/src/lib/abstract-form-component.ts:4-13 | A new component has no tree, an enabled submit button, no error and no success message. It keeps `withRecaptcha`. The fallback message is the given one, or "Operation failed, please try again shortly." when the argument is omitted |
| AbstractFormComponent.GetFormArray | projects/rahimalizada/ngx-form/src/lib/abstract-form-component.ts:32-34 | Throws exactly when there is no tree. Otherwise it returns the root member of that name, whatever its kind, and returns `null` exactly when the root has no such member |
| AbstractFormComponent.GetFormGroup | projects/rahimalizada/ngx-form/src/lib/abstract-form-component.ts:36-38 | Yields the same node as `getFormArray` for every name: neither accessor checks the kind |
| AbstractFormComponent.GetControl | projects/rahimalizada/ngx-form/src/lib/abstract-form-component.ts:20-30 | `None` stands both for a throw and for `undefined`; `isInvalid` throws on either. Without a tree the result is `None`, because `this.form.get` and `getFormArray` dereference the unassigned `form`. With a tree, the control found is exactly the node that generic path navigation reaches along the query's route, and none when that navigation fails |
| AbstractFormComponent.GetControlRoutes | projects/rahimalizada/ngx-form/src/lib/abstract-form-component.ts:20-30 | Lookup equals navigation along one of three paths. With a non-empty parent and a defined index (0 included): array `parent`, element `index`, member `ctrlName`. With a non-empty parent only: group `parent`, member `ctrlName`. Otherwise (no parent, or the empty string): root member `ctrlName` |
| AbstractFormComponent.IsInvalid | projects/rahimalizada/ngx-form/src/lib/abstract-form-component.ts:15-18 | The query throws exactly when there is no tree or the path reaches no control. Otherwise it answers "invalid, and touched or dirty" for the node at the end of the path |
| AbstractFormComponent.IsInvalidOnLeaf | projects/rahimalizada/ngx-form/src/lib/abstract-form-component.ts:15-18 | On a leaf the answer is `!valid && (touched \|\| dirty)` |
| AbstractFormComponent.PristineNeverInvalid | projects/rahimalizada/ngx-form/src/lib/abstract-form-component.ts:15-18 | A control that is neither touched nor dirty is reported valid, even when it fails validation |
| AbstractFormComponent.QuerySeesDirectUpdate | projects/rahimalizada/ngx-form/src/lib/abstract-form-component.ts:20-27 | Setting the touched/dirty flags of the control that direct navigation reaches changes the query's answer to match: invalid exactly when the control fails validation and one of the new flags is set |
| AbstractFormComponent.OnCancel | projects/rahimalizada/ngx-form/src/lib/abstract-form-component.ts:40-44 | With a tree: the tree keeps its shape and the same paths resolve. Every leaf becomes untouched and pristine and takes the validity of its reset value, so no control is touched or dirty. Both messages are cleared, and the submit button is left as it was. Without a tree: the call throws and nothing changes |
| AbstractFormComponent.CancelClearsEveryQuery | projects/rahimalizada/ngx-form/src/lib/abstract-form-component.ts:40-44 | After cancelling, every query that reached a control still reaches one and reports it valid. Every query that failed still fails |
| AbstractFormComponent.CancelIdempotent | projects/rahimalizada/ngx-form/src/lib/abstract-form-component.ts:40-44 | Cancelling twice equals cancelling once |
| AbstractFormComponent.CancelWinsOverInteraction | projects/rahimalizada/ngx-form/src/lib/abstract-form-component.ts:40-44 | Touching, marking or editing any control before cancelling does not change the cancelled component. This holds whatever the control's new touched and dirty flags are, and whatever its validity becomes after its validators run again on the edited value |
| AbstractFormComponent.OnSubmit | projects/rahimalizada/ngx-form/src/lib/abstract-form-component.ts:46-51 | Disables the submit button and clears both messages. With a tree: every leaf becomes touched, including leaves in nested groups and array elements. The same paths resolve, and at every path only the leaf's `touched` flag changes, so each control keeps its dirtiness and validity. Without a tree: the three fields are set, then the call throws |
| AbstractFormComponent.SubmitRevealsValidity | projects/rahimalizada/ngx-form/src/lib/abstract-form-component.ts:46-51 | After submitting, every query that reaches a control reports exactly whether that control fails validation |
| AbstractFormComponent.SubmitThenCancel | projects/rahimalizada/ngx-form/src/lib/abstract-form-component.ts:40-51 | Submit then cancel equals cancel alone, except that the submit button stays disabled |
| AbstractFormComponent.HandleError | projects/rahimalizada/ngx-form/src/lib/abstract-form-component.ts:53-61 | Re-enables the submit button. For a status from 400 to 499 the error message is the server's text; for any other status it is the fallback. The tree and the success flag are unchanged |
| AbstractFormComponent.ClientErrorIsStatusClass4xx | projects/rahimalizada/ngx-form/src/lib/abstract-form-component.ts:56 | The verbatim range 400..499 is exactly the set of statuses whose integer quotient by 100 is 4; for three-digit codes this is the HTTP client-error class 4xx |
| AbstractFormComponent.HandleErrorBoundaries | projects/rahimalizada/ngx-form/src/lib/abstract-form-component.ts:56-60 | 400 and 499 are shown verbatim; 399 and 500 get the fallback |
| AbstractFormComponent.SubmitThenError | projects/rahimalizada/ngx-form/src/lib/abstract-form-component.ts:46-61 | A failed submit ends with the button enabled, an error message, no success message and the submitted tree |
| AbstractFormComponent.RecaptchaIsInert | projects/rahimalizada/ngx-form/src/lib/abstract-form-component.ts:10-13 | `withRecaptcha` is never read: components differing only in it give the same answers and reach the same states |
| AbstractFormComponent.TestFormQueries | projects/rahimalizada/ngx-form/src/lib/abstract-form-component.spec.ts:68-154 | On the test form (root, group and array-element fields, all failing validation), all three kinds of query report valid at first and invalid after submitting |
| AbstractFormComponent.TestFormErrors | projects/rahimalizada/ngx-form/src/lib/abstract-form-component.spec.ts:156-171 | Status 404 shows "Not found" and re-enables the button; status 500 then shows the configured "Generic error message" |
| Controls.Get | projects/rahimalizada/ngx-form/src/lib/abstract-form-component.ts:29 | `form.get(name)` is a one-step navigation to the member `name` |
| Controls.Reset | projects/rahimalizada/ngx-form/src/lib/abstract-form-component.ts:41 | `reset()` keeps the shape and the set of paths that resolve. At every path the leaf becomes untouched and pristine and takes the validity of its reset value, so no control is touched or dirty |
| Controls.MarkAllAsTouched | projects/rahimalizada/ngx-form/src/lib/abstract-form-component.ts:50 | `markAllAsTouched()` keeps the shape and the set of paths that resolve. At every path only the leaf's `touched` flag changes (to true), so each control keeps its dirtiness and validity |
| Controls.ResetIdempotent | projects/rahimalizada/ngx-form/src/lib/abstract-form-component.ts:41 | Resetting a reset tree changes nothing |
| Controls.ResetAfterMarkAllAsTouched | projects/rahimalizada/ngx-form/src/lib/abstract-form-component.ts:41-50 | Resetting a tree after marking it all touched gives the same tree as resetting it directly |
| Controls.ResetIgnoresInteraction | projects/rahimalizada/ngx-form/src/lib/abstract-form-component.ts:41 | Changing the touched flag, the dirty flag and the validity of any control before a reset does not change the reset tree |
| Controls.InvalidAllTouchedIsTouched | projects/rahimalizada/ngx-form/src/lib/abstract-form-component.ts:17 | Once every leaf is touched, any invalid group, array or leaf counts as touched |
| Controls.ResolveMapLeaves | projects/rahimalizada/ngx-form/src/lib/abstract-form-component.ts:41-50 | A whole-tree leaf update keeps the set of paths that resolve, and each resolved node is the updated original node |
| Controls.LeavesAtPaths | projects/rahimalizada/ngx-form/src/lib/abstract-form-component.ts:41-50 | For every path at once: a whole-tree leaf update keeps which paths resolve and turns each leaf `l` into the updated `l` |
| Controls.ResolveUpdateAt | projects/rahimalizada/ngx-form/src/lib/abstract-form-component.ts:21-29 | After updating the node at a path, navigating that path reaches the updated node |

## Left out

- Angular's validators: each leaf's validity is a given flag. Its validity after `reset()` is a second given flag, the validators' verdict on the value `reset()` restores. Values themselves, and what `reset()` assigns, are not modelled.
- Group-level own flags: a group's or array's `touched`, `dirty` and `invalid` are the aggregates of its children. This is what Angular keeps when flags are changed on leaves. Calling `markAsTouched` or `markAsDirty` on a group itself, validators on groups, and `markAllAsTouched` on an empty group (Angular marks that group touched) are not represented.
- Disabled and pending controls are not modelled.
- The root is a `FormGroup`, as its declared type says; `get` on a root of another kind yields nothing in the model.
- `form.get(name)` is a single-name lookup. Dotted paths (`'a.b'`) are not modelled.
- JavaScript duck typing across kinds: indexing a `FormGroup` with a number (a string-keyed lookup in JavaScript), or naming a member of a `FormArray`, is a failed lookup in the model. An index that is not an integer is not representable.
- JavaScript property lookup on the `controls` object: the group and array routes of `getControl` read `fromGroup.controls[ctrlName]` directly, so a name inherited from `Object.prototype` (`'constructor'`, `'toString'`) yields a function whose `invalid` is `undefined`, and `isInvalid` then returns `undefined` without throwing. The model has no inherited names; such a query is a failed lookup there. The root route goes through `form.get`, which only sees the group's own members, as in the model.
- `errorMessage` is `undefined` before the first cancel or submit and `null` after one. The model writes both as `None`.
- `console.log(error)` in `handleError` is output only and is left out.
- `HttpErrorResponse` is reduced to its integer `status` and its `error` payload, taken as a string.
- The success path that sets `showSuccessMessage` to true is in the concrete form, not in this component. Re-entrant and asynchronous submits are outside the component.
- The test-bed, template and component-creation scaffolding of the test files is not modelled. The wrapper component `NgxFormComponent`, whose only test checks that it can be created, is not part of this model.
