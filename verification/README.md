# Machine-template admission validation, modelled in Dafny

This project models the admission-time validation of the `GCPMachineTemplate`
resource of the Cluster API provider for Google Cloud. There are two pure decisions.

- **The confidential-compute rule.** If the template's machine spec
  (`spec.template.spec`) asks for confidential compute, then host maintenance must
  be `Terminate`. The machine series must also be non-empty and occur in the
  supported-series string. The series is the instance type up to its first `-`.
- **The immutability check on update.** Both the new and the old object are
  converted to a generic key/value document. The keys `providerID`,
  `additionalLabels` and `additionalNetworkTags` are deleted from the top level of
  each `spec` entry. The remainders must then be deeply equal.

The entry points wrap these decisions:
- create runs the rule;
- update runs the immutability check;
- delete always accepts;
- defaulting changes nothing.

Files:
- `wrappers.dfy`: `Option` (a Go pointer that may be nil) and `Outcome` (nil error or an error).
- `strings.dfy`: Go's `strings.Split` (one-character separator), `strings.Join` and
  `strings.Contains`, with reference definitions and round-trip lemmas.
- `unstructured.dfy`: the generic document (`Value`, `Document`), deep equality in
  the manner of `reflect.DeepEqual`, and `delete` on a map.
- `machine_types.dfy`: the typed template, the two policy enums and the error values.
- `template_webhook.dfy`: the rule, the four entry points and the properties proved about them.

Modelling choices:
- The conversion to the generic form is a library call whose internals are not
  modelled. `ValidateUpdate` therefore takes it as a parameter `toUnstructured`.
  This parameter returns `None` when conversion fails.
- The supported-series constant's value is not part of this model. Its value is
  the parameter `supported`.
- The rule's two plain errors are the values `RequiresTerminate` and
  `UnsupportedSeries(supported)`. The update errors are
  `Invalid(kind, name, causes)`, where a cause is either `Forbidden(path, detail)`
  or `InternalError(detail)`. An `InternalError` has no field path.

Behaviour worth knowing, as the code has it:
- An instance type with no `-` is its own machine series, because `Split` returns the
  whole string as its first segment. The series is empty only when the instance type
  is empty or starts with `-` (`SeriesEmptyIff`).
- The rule is an implication, not an equivalence. A template without confidential
  compute passes whatever its host maintenance and instance type (the first
  postcondition of `ValidateConfidentialCompute`). More generally, the instance type
  matters only when confidential compute is on with `Terminate`
  (`InstanceTypeIrrelevantWithoutTerminate`).
- The series is matched by substring containment. Every listed series is therefore
  accepted (`ListedSeriesAccepted`). So is every non-empty block of the supported
  string, for example `n2` against the list `n2d,c2d` (`SubstringSeriesAccepted`,
  `UnlistedPrefixAccepted`).
- The three deletions act on the top level of the template's `spec`. The typed
  template has only `template` there, and the machine fields, `providerID` among
  them, sit under `spec.template.spec`. So the deletions change nothing for such
  documents (`RemovalIsNoOpOnTemplateShape`). Changing a nested `providerID` is
  rejected like any other change (`NestedProviderIDChangeForbidden`). The model
  deletes at the level the code uses.

## Model

| member | source | states |
|---|---|---|
| Strings.Split | api/v1beta1/gcpmachinetemplate_webhook.go:111 | splitting always yields at least one segment (so `[0]` is defined); no segment contains the separator; there is one segment per separator plus one |
| Strings.JoinSplit | api/v1beta1/gcpmachinetemplate_webhook.go:111 | joining the segments of a split with the separator gives back the original string |
| Strings.SplitJoin | api/v1beta1/gcpmachinetemplate_webhook.go:111 | splitting a join of separator-free segments gives back exactly those segments |
| Strings.FirstSegment | api/v1beta1/gcpmachinetemplate_webhook.go:111 | the first segment is a prefix of the string; it is either the whole string or followed by the separator; it is the whole string when the separator does not occur |
| Strings.Contains | api/v1beta1/gcpmachinetemplate_webhook.go:112 | the containment scan answers true exactly when the sought string occurs at some position of the searched string (the empty string occurs everywhere) |
| Strings.OccursInJoin | api/v1beta1/gcpmachinetemplate_webhook.go:112-113 | every entry of a separator-joined list occurs in the joined string |
| Unstructured.DeepEqual | api/v1beta1/gcpmachinetemplate_webhook.go:84 | recursive structural comparison (scalars by value, lists elementwise, objects by key set and per key) holds exactly when the two documents are equal |
| Unstructured.Delete | api/v1beta1/gcpmachinetemplate_webhook.go:73-82 | after deleting a key it is absent; every other key keeps its presence and its value |
| TemplateWebhook.MachineSeries | api/v1beta1/gcpmachinetemplate_webhook.go:111 | the computed series is a `-`-free prefix of the instance type that is either all of it or followed by `-` |
| TemplateWebhook.SeriesUnique | api/v1beta1/gcpmachinetemplate_webhook.go:111 | an instance type has only one string with those properties, so the series is well defined |
| TemplateWebhook.SeriesEmptyIff | api/v1beta1/gcpmachinetemplate_webhook.go:111-112 | the series is empty exactly when the instance type is empty or starts with `-`; without `-` the series is the whole instance type |
| TemplateWebhook.ValidateConfidentialCompute | api/v1beta1/gcpmachinetemplate_webhook.go:105-117 | without confidential compute enabled the rule passes; when it is enabled and host maintenance is absent or `Migrate`, the rule fails with the Terminate error; when it is enabled and host maintenance is `Terminate`, the rule either passes or fails with the unsupported-series error, never the Terminate error |
| TemplateWebhook.ConfidentialComputeAccepts | api/v1beta1/gcpmachinetemplate_webhook.go:105-117 | the rule passes exactly when confidential compute is off, or host maintenance is `Terminate` and the unique series is non-empty and occurs in the supported string |
| TemplateWebhook.InstanceTypeIrrelevantWithoutTerminate | api/v1beta1/gcpmachinetemplate_webhook.go:106-109 | unless confidential compute is enabled with `Terminate`, replacing the instance type does not change the outcome (the maintenance check comes first) |
| TemplateWebhook.EmptySeriesRejected | api/v1beta1/gcpmachinetemplate_webhook.go:111-113 | with confidential compute enabled and `Terminate`, an empty instance type or one starting with `-` is rejected as an unsupported series |
| TemplateWebhook.SubstringSeriesAccepted | api/v1beta1/gcpmachinetemplate_webhook.go:111-116 | with confidential compute enabled and `Terminate`, any non-empty `-`-free block of the supported string is accepted as the series, alone or followed by `-` and anything |
| TemplateWebhook.ListedSeriesAccepted | api/v1beta1/gcpmachinetemplate_webhook.go:111-116 | when the supported string is a comma-joined list, every non-empty listed series is accepted |
| TemplateWebhook.UnlistedPrefixAccepted | api/v1beta1/gcpmachinetemplate_webhook.go:112 | against the list `n2d,c2d`, the instance type `n2-standard-2` is accepted although `n2` is not one of the list's entries |
| TemplateWebhook.ValidateCreate | api/v1beta1/gcpmachinetemplate_webhook.go:47-52 | create returns the rule's outcome unchanged, and so accepts exactly the admissible templates |
| TemplateWebhook.ValidateDelete | api/v1beta1/gcpmachinetemplate_webhook.go:93-98 | delete always accepts |
| TemplateWebhook.Default | api/v1beta1/gcpmachinetemplate_webhook.go:100-103 | defaulting leaves the object unchanged |
| TemplateWebhook.RemoveMutableKeys | api/v1beta1/gcpmachinetemplate_webhook.go:72-82 | the three deletions leave exactly the keys outside `providerID`, `additionalLabels`, `additionalNetworkTags`, each with its original value |
| TemplateWebhook.RemoveMutableKeysEqualIff | api/v1beta1/gcpmachinetemplate_webhook.go:72-84 | two spec documents are equal after the deletions exactly when they agree, key by key, on every key other than the three mutable ones |
| TemplateWebhook.ValidateUpdate | api/v1beta1/gcpmachinetemplate_webhook.go:54-91 | a failed conversion of the new object, then of the old, gives an internal error naming that side; otherwise update passes exactly when the specs agree outside the mutable keys, and otherwise fails with "spec: cannot be modified" |
| TemplateWebhook.UpdateIdenticalPasses | api/v1beta1/gcpmachinetemplate_webhook.go:69-90 | objects that convert to the same document always pass |
| TemplateWebhook.UpdateMutableOnlyPasses | api/v1beta1/gcpmachinetemplate_webhook.go:72-90 | adding, changing or removing only top-level mutable keys of `spec` passes |
| TemplateWebhook.UpdateImmutableChangeForbidden | api/v1beta1/gcpmachinetemplate_webhook.go:84-88 | a difference at any other top-level key of `spec` is rejected with a forbidden error on path `spec` reading "cannot be modified" |
| TemplateWebhook.UpdateInternalErrorIffConversionFails | api/v1beta1/gcpmachinetemplate_webhook.go:56-67 | update rejects with an internal error exactly when one of the conversions fails, so this error never coincides with the forbidden one |
| TemplateWebhook.RemovalIsNoOpOnTemplateShape | api/v1beta1/gcpmachinetemplate_webhook.go:69-82 | on a spec document whose only top-level key is `template`, the deletions change nothing |
| TemplateWebhook.NestedProviderIDChangeForbidden | api/v1beta1/gcpmachinetemplate_webhook.go:69-88 | changing `providerID` under `spec.template.spec` is rejected with "spec: cannot be modified" |

## Left out

- Webhook registration with the controller manager and the kubebuilder markers: framework wiring with no bearing on any outcome.
- Logging on create, delete and default, and the package logger: side effects only.
- The conversion of typed objects to generic documents: a library call, modelled as the parameter `toUnstructured`. The old object is taken to be a template, as the admission framework supplies it.
- TemplateWebhook.ValidateUpdate: the panic of the type assertion on a missing or non-object `spec` is not modelled. Instead, a precondition requires both `spec` entries to be objects whenever both conversions succeed.
- Unstructured.DeepEqual: the generic document has no floating-point numbers and no difference between a nil and an empty map or list. So the corner cases of `reflect.DeepEqual` there (NaN is unequal to itself; nil differs from empty) are not modelled.
- The supported-series constant: its value is not part of this model and is the parameter `supported`.
- The texts of the rule's errors: they are the two values `RequiresTerminate` and `UnsupportedSeries(supported)`. The internal error keeps only the wrapping text, not the underlying conversion error. The object's group is reduced to the kind name.
- Policy values outside the two named constants: both policies are strings in the resource, but the schema admits only the named values. The model's enums have only those values.
- The single-object (`GCPMachine`) validator: its implementation is not part of this model, so it is not modelled. Its test expects acceptance for `Enabled` with `Terminate` and an empty instance type (api/v1beta1/gcpmachine_webhook_test.go:44-53). The template rule rejects that input (`EmptySeriesRejected`).
- Strings as bytes: Go strings are byte sequences, while the model's strings are sequences of characters. No outcome changes. The separator `-` is ASCII, and on valid UTF-8 a byte-level split or containment test agrees with the character-level one.
