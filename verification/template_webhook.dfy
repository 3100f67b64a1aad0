/**
 Admission validation of machine templates: the confidential-compute rule,
 the create/update/delete/default entry points, and the immutability check
 that update performs on the generic form of the old and new objects.
 */
module TemplateWebhook {
  import opened Wrappers
  import opened Strings
  import opened Unstructured
  import opened MachineTypes

  /** The kind named in the "invalid object" errors. */
  const Kind: string := "GCPMachineTemplate"

  /** Separates the machine series from the rest of an instance type. */
  const SeriesSeparator: char := '-'

  /** Top-level keys of the template's `spec` document that an update may change. */
  const MutableKeys: set<string> := {"providerID", "additionalLabels", "additionalNetworkTags"}

  const ConvertNewFailed: string := "failed to convert new GCPMachineTemplate to unstructured object"
  const ConvertOldFailed: string := "failed to convert old GCPMachineTemplate to unstructured object"

  /** The field error of a rejected update: the `spec` field cannot be modified. */
  const SpecImmutable: FieldError := Forbidden(["spec"], "cannot be modified")

  // ---------------------------------------------------------------------------
  // Machine series

  /** `series` is the machine series of `instanceType`: the prefix up to the first
      separator, or the whole instance type when it has no separator. */
  ghost predicate IsSeriesOf(series: string, instanceType: string)
  {
    && series <= instanceType
    && SeriesSeparator !in series
    && (|series| == |instanceType| || instanceType[|series|] == SeriesSeparator)
  }

  /** The machine series as the validator computes it: the first segment of the
      instance type split at the separator. */
  function MachineSeries(instanceType: string): (series: string)
    ensures IsSeriesOf(series, instanceType)
  {
    FirstSegment(instanceType, SeriesSeparator);
    Split(instanceType, SeriesSeparator)[0]
  }

  /** An instance type has exactly one machine series. */
  lemma SeriesUnique(p: string, q: string, instanceType: string)
    requires IsSeriesOf(p, instanceType) && IsSeriesOf(q, instanceType)
    ensures p == q
  {
  }

  /** The series is empty exactly when the instance type is empty or starts with
      the separator; an instance type without a separator is its own series. */
  lemma SeriesEmptyIff(instanceType: string)
    ensures MachineSeries(instanceType) == "" <==>
      instanceType == "" || instanceType[0] == SeriesSeparator
    ensures SeriesSeparator !in instanceType ==> MachineSeries(instanceType) == instanceType
  {
  }

  // ---------------------------------------------------------------------------
  // Confidential-compute rule

  /** Confidential compute is switched on: the field is set and equals `Enabled`. */
  predicate ConfidentialComputeEnabled(s: GCPMachineSpec)
  {
    s.confidentialCompute == Some(Enabled)
  }

  /** What the rule admits, stated without reference to the validator: a machine
      with confidential compute switched on must terminate on host maintenance and
      have a non-empty machine series that occurs in the supported-series string. */
  ghost predicate ConfidentialComputeAdmissible(s: GCPMachineSpec, supported: string)
  {
    ConfidentialComputeEnabled(s) ==>
      && s.onHostMaintenance == Some(Terminate)
      && exists series :: IsSeriesOf(series, s.instanceType) && series != "" && Occurs(series, supported)
  }

  /** The confidential-compute rule on the template's machine spec. `supported` is
      the supported-series constant. The host-maintenance check comes first, so its
      error wins whatever the instance type. */
  function ValidateConfidentialCompute(t: GCPMachineTemplate, supported: string): (r: Outcome<ValidationError>)
    ensures !ConfidentialComputeEnabled(t.spec.template.spec) ==> r == Pass
    ensures (ConfidentialComputeEnabled(t.spec.template.spec)
             && t.spec.template.spec.onHostMaintenance != Some(Terminate)) ==> r == Fail(RequiresTerminate)
    ensures (ConfidentialComputeEnabled(t.spec.template.spec)
             && t.spec.template.spec.onHostMaintenance == Some(Terminate)) ==>
              r == Pass || r == Fail(UnsupportedSeries(supported))
  {
    var s := t.spec.template.spec;
    if s.confidentialCompute == Some(Enabled) then
      match s.onHostMaintenance
      case None => Fail(RequiresTerminate)
      case Some(Migrate) => Fail(RequiresTerminate)
      case Some(Terminate) =>
        var machineSeries := MachineSeries(s.instanceType);
        if machineSeries == "" || !Contains(supported, machineSeries) then
          Fail(UnsupportedSeries(supported))
        else
          Pass
    else
      Pass
  }

  /** The rule accepts exactly the admissible machine specs. */
  lemma ConfidentialComputeAccepts(t: GCPMachineTemplate, supported: string)
    ensures ValidateConfidentialCompute(t, supported).Pass? <==>
      ConfidentialComputeAdmissible(t.spec.template.spec, supported)
  {
    var s := t.spec.template.spec;
    var series := MachineSeries(s.instanceType);
    if ConfidentialComputeEnabled(s) && s.onHostMaintenance == Some(Terminate) {
      if ConfidentialComputeAdmissible(s, supported) {
        var other :| IsSeriesOf(other, s.instanceType) && other != "" && Occurs(other, supported);
        SeriesUnique(other, series, s.instanceType);
      }
    }
  }

  /** Unless confidential compute is on with `Terminate`, the instance type plays no
      part in the decision. */
  lemma InstanceTypeIrrelevantWithoutTerminate(t: GCPMachineTemplate, supported: string, instanceType: string)
    requires !(ConfidentialComputeEnabled(t.spec.template.spec)
               && t.spec.template.spec.onHostMaintenance == Some(Terminate))
    ensures var t' := t.(spec := t.spec.(template := t.spec.template.(spec :=
              t.spec.template.spec.(instanceType := instanceType))));
            ValidateConfidentialCompute(t', supported) == ValidateConfidentialCompute(t, supported)
  {
  }

  /** With confidential compute on and `Terminate`, an empty series (an empty
      instance type, or one starting with the separator) is rejected. */
  lemma EmptySeriesRejected(t: GCPMachineTemplate, supported: string)
    requires ConfidentialComputeEnabled(t.spec.template.spec)
    requires t.spec.template.spec.onHostMaintenance == Some(Terminate)
    requires t.spec.template.spec.instanceType == ""
          || t.spec.template.spec.instanceType[0] == SeriesSeparator
    ensures ValidateConfidentialCompute(t, supported) == Fail(UnsupportedSeries(supported))
  {
  }

  /** Membership is tested by containment, so ANY non-empty separator-free block of
      the supported string is accepted as a series, not only the listed names. */
  lemma SubstringSeriesAccepted(t: GCPMachineTemplate, supported: string, block: string, rest: string)
    requires ConfidentialComputeEnabled(t.spec.template.spec)
    requires t.spec.template.spec.onHostMaintenance == Some(Terminate)
    requires block != "" && SeriesSeparator !in block && Occurs(block, supported)
    requires t.spec.template.spec.instanceType == block
          || t.spec.template.spec.instanceType == block + [SeriesSeparator] + rest
    ensures ValidateConfidentialCompute(t, supported) == Pass
  {
    assert IsSeriesOf(block, t.spec.template.spec.instanceType);
    ConfidentialComputeAccepts(t, supported);
  }

  /** When the supported string is a comma-separated list, every listed series is
      accepted, whatever follows the series in the instance type. */
  lemma ListedSeriesAccepted(t: GCPMachineTemplate, listed: seq<string>, i: nat, rest: string)
    requires i < |listed|
    requires listed[i] != "" && SeriesSeparator !in listed[i]
    requires ConfidentialComputeEnabled(t.spec.template.spec)
    requires t.spec.template.spec.onHostMaintenance == Some(Terminate)
    requires t.spec.template.spec.instanceType == listed[i]
          || t.spec.template.spec.instanceType == listed[i] + [SeriesSeparator] + rest
    ensures ValidateConfidentialCompute(t, Join(listed, ',')) == Pass
  {
    OccursInJoin(listed, ',', i);
    SubstringSeriesAccepted(t, Join(listed, ','), listed[i], rest);
  }

  /** The containment test also admits a series that is not on the list: with the
      list "n2d,c2d", the series "n2" of "n2-standard-2" is accepted although
      splitting the list at commas does not yield "n2". */
  lemma UnlistedPrefixAccepted(t: GCPMachineTemplate)
    requires t.spec.template.spec == GCPMachineSpec("n2-standard-2", Some(Terminate), Some(Enabled))
    ensures "n2" !in Split("n2d,c2d", ',')
    ensures ValidateConfidentialCompute(t, "n2d,c2d") == Pass
  {
    var listed := ["n2d", "c2d"];
    assert Join(listed[1..], ',') == "c2d";
    assert Join(listed, ',') == "n2d,c2d";
    SplitJoin(listed, ',');
    assert "n2-standard-2" == "n2" + [SeriesSeparator] + "standard-2";
    assert OccursAt("n2", "n2d,c2d", 0);
    SubstringSeriesAccepted(t, "n2d,c2d", "n2", "standard-2");
  }

  // ---------------------------------------------------------------------------
  // Lifecycle entry points

  /** Create runs the confidential-compute rule and returns its result unchanged,
      so it accepts exactly the admissible templates. */
  function ValidateCreate(t: GCPMachineTemplate, supported: string): (r: Outcome<ValidationError>)
    ensures r == ValidateConfidentialCompute(t, supported)
    ensures r.Pass? <==> ConfidentialComputeAdmissible(t.spec.template.spec, supported)
  {
    ConfidentialComputeAccepts(t, supported);
    ValidateConfidentialCompute(t, supported)
  }

  /** Delete places no constraint on the object. */
  function ValidateDelete(t: GCPMachineTemplate): (r: Outcome<ValidationError>)
    ensures r == Pass
  {
    Pass
  }

  /** Defaulting fills in nothing: the object is left as it was. */
  function Default(t: GCPMachineTemplate): (t': GCPMachineTemplate)
    ensures t' == t
  {
    t
  }

  // ---------------------------------------------------------------------------
  // Update: immutability of the template spec

  /** The generic document has a `spec` entry holding an object. */
  predicate HasObjectSpec(d: Document)
  {
    "spec" in d && d["spec"].Object?
  }

  /** The `spec` entries can be read as objects once both conversions succeeded
      (otherwise the type assertions on them would panic). */
  predicate SpecsReadable(newDoc: Option<Document>, oldDoc: Option<Document>)
  {
    newDoc.Some? && oldDoc.Some? ==> HasObjectSpec(newDoc.value) && HasObjectSpec(oldDoc.value)
  }

  /** The fields of the `spec` entry. */
  function SpecFields(d: Document): Document
    requires HasObjectSpec(d)
  {
    d["spec"].fields
  }

  /** Deletes the three mutable keys from the top level of a spec document. */
  function RemoveMutableKeys(spec: Document): (r: Document)
    ensures r.Keys == spec.Keys - MutableKeys
    ensures forall k :: k in r ==> r[k] == spec[k]
  {
    Delete(Delete(Delete(spec, "providerID"), "additionalLabels"), "additionalNetworkTags")
  }

  /** Two spec documents agree on every top-level key other than the mutable ones:
      each such key is present in both or neither, with equal values. */
  ghost predicate ImmutablePartsAgree(a: Document, b: Document)
  {
    forall k :: k !in MutableKeys ==> (k in a <==> k in b) && (k in a ==> a[k] == b[k])
  }

  /** Removing the mutable keys makes two documents equal exactly when they agree
      outside the mutable keys. */
  lemma RemoveMutableKeysEqualIff(a: Document, b: Document)
    ensures RemoveMutableKeys(a) == RemoveMutableKeys(b) <==> ImmutablePartsAgree(a, b)
  {
  }

  /** Update: convert the new object, then the old one, to generic documents (a
      failure is an internal error attached to no field); delete the mutable keys
      from the top level of both `spec` entries; reject with "spec: cannot be
      modified" unless the remainders are deeply equal. */
  function ValidateUpdate(
    toUnstructured: GCPMachineTemplate -> Option<Document>,
    t: GCPMachineTemplate,
    previous: GCPMachineTemplate): (r: Outcome<ValidationError>)
    requires SpecsReadable(toUnstructured(t), toUnstructured(previous))
    ensures toUnstructured(t).None? ==>
      r == Fail(Invalid(Kind, t.name, [InternalError(ConvertNewFailed)]))
    ensures toUnstructured(t).Some? && toUnstructured(previous).None? ==>
      r == Fail(Invalid(Kind, t.name, [InternalError(ConvertOldFailed)]))
    ensures r.Pass? <==>
      && toUnstructured(t).Some? && toUnstructured(previous).Some?
      && ImmutablePartsAgree(SpecFields(toUnstructured(t).value), SpecFields(toUnstructured(previous).value))
    ensures toUnstructured(t).Some? && toUnstructured(previous).Some? && r.Fail? ==>
      r == Fail(Invalid(Kind, t.name, [SpecImmutable]))
  {
    match toUnstructured(t)
    case None => Fail(Invalid(Kind, t.name, [InternalError(ConvertNewFailed)]))
    case Some(newDoc) =>
      match toUnstructured(previous)
      case None => Fail(Invalid(Kind, t.name, [InternalError(ConvertOldFailed)]))
      case Some(oldDoc) =>
        var newSpec := RemoveMutableKeys(SpecFields(newDoc));
        var oldSpec := RemoveMutableKeys(SpecFields(oldDoc));
        RemoveMutableKeysEqualIff(SpecFields(newDoc), SpecFields(oldDoc));
        if !DeepEqual(Object(oldSpec), Object(newSpec)) then
          Fail(Invalid(Kind, t.name, [SpecImmutable]))
        else
          Pass
  }

  /** Converting to identical documents always passes. */
  lemma UpdateIdenticalPasses(
    toUnstructured: GCPMachineTemplate -> Option<Document>,
    t: GCPMachineTemplate,
    previous: GCPMachineTemplate)
    requires toUnstructured(t).Some? && HasObjectSpec(toUnstructured(t).value)
    requires toUnstructured(previous) == toUnstructured(t)
    ensures ValidateUpdate(toUnstructured, t, previous) == Pass
  {
  }

  /** Adding, changing or removing only the mutable top-level keys of `spec`
      passes. */
  lemma UpdateMutableOnlyPasses(
    toUnstructured: GCPMachineTemplate -> Option<Document>,
    t: GCPMachineTemplate,
    previous: GCPMachineTemplate,
    removed: set<string>,
    added: Document)
    requires toUnstructured(t).Some? && toUnstructured(previous).Some?
    requires HasObjectSpec(toUnstructured(t).value) && HasObjectSpec(toUnstructured(previous).value)
    requires removed <= MutableKeys && added.Keys <= MutableKeys
    requires SpecFields(toUnstructured(t).value) == (SpecFields(toUnstructured(previous).value) - removed) + added
    ensures ValidateUpdate(toUnstructured, t, previous) == Pass
  {
  }

  /** A difference at any other top-level key of `spec` (present on one side only,
      or with different values) is rejected with "spec: cannot be modified". */
  lemma UpdateImmutableChangeForbidden(
    toUnstructured: GCPMachineTemplate -> Option<Document>,
    t: GCPMachineTemplate,
    previous: GCPMachineTemplate,
    key: string)
    requires toUnstructured(t).Some? && toUnstructured(previous).Some?
    requires HasObjectSpec(toUnstructured(t).value) && HasObjectSpec(toUnstructured(previous).value)
    requires key !in MutableKeys
    requires var a, b := SpecFields(toUnstructured(t).value), SpecFields(toUnstructured(previous).value);
      (key in a) != (key in b) || (key in a && key in b && a[key] != b[key])
    ensures ValidateUpdate(toUnstructured, t, previous) == Fail(Invalid(Kind, t.name, [SpecImmutable]))
  {
  }

  /** A failed conversion rejects with an internal error attached to no field, and
      only a failed conversion does so: the two kinds of rejection never overlap. */
  lemma UpdateInternalErrorIffConversionFails(
    toUnstructured: GCPMachineTemplate -> Option<Document>,
    t: GCPMachineTemplate,
    previous: GCPMachineTemplate)
    requires SpecsReadable(toUnstructured(t), toUnstructured(previous))
    ensures var r := ValidateUpdate(toUnstructured, t, previous);
      (r.Fail? && r.error.Invalid? && |r.error.causes| == 1 && r.error.causes[0].InternalError?)
      <==> (toUnstructured(t).None? || toUnstructured(previous).None?)
  {
  }

  /** The typed template spec converts to a document whose only top-level key is
      `template`. On such documents the deletions change nothing, since the mutable
      keys live one level deeper, under `template.spec`. */
  lemma RemovalIsNoOpOnTemplateShape(spec: Document)
    requires spec.Keys <= {"template"}
    ensures RemoveMutableKeys(spec) == spec
  {
  }

  /** Consequently, changing `providerID` inside `template.spec` is rejected like any
      other change, although `providerID` is one of the mutable keys. */
  lemma NestedProviderIDChangeForbidden(
    toUnstructured: GCPMachineTemplate -> Option<Document>,
    t: GCPMachineTemplate,
    previous: GCPMachineTemplate,
    machine: Document,
    newID: Value)
    requires "providerID" !in machine || machine["providerID"] != newID
    requires toUnstructured(previous) ==
      Some(map["spec" := Object(map["template" := Object(map["spec" := Object(machine)])])])
    requires toUnstructured(t) ==
      Some(map["spec" := Object(map["template" := Object(map["spec" := Object(machine["providerID" := newID])])])])
    ensures ValidateUpdate(toUnstructured, t, previous) == Fail(Invalid(Kind, t.name, [SpecImmutable]))
  {
    var changed := machine["providerID" := newID];
    assert "providerID" !in machine || changed["providerID"] != machine["providerID"];
    var oldBody, newBody := map["spec" := Object(machine)], map["spec" := Object(changed)];
    assert oldBody["spec"] != newBody["spec"];
    assert Object(oldBody) != Object(newBody);
    UpdateImmutableChangeForbidden(toUnstructured, t, previous, "template");
  }
}
