/**
 The typed machine-template resource, as far as the validators read it, and
 the errors they return.
 */
module MachineTypes {
  import opened Wrappers

  /** Whether confidential computing (memory encryption) is requested. */
  datatype ConfidentialComputePolicy = Enabled | Disabled

  /** What the platform does with the instance when its host needs maintenance. */
  datatype HostMaintenancePolicy = Migrate | Terminate

  /** The machine fields the confidential-compute rule reads. Both policies are
      optional pointers in the resource; `None` means the field was not set. */
  datatype GCPMachineSpec = GCPMachineSpec(
    instanceType: string,
    onHostMaintenance: Option<HostMaintenancePolicy>,
    confidentialCompute: Option<ConfidentialComputePolicy>)

  /** The template body: one machine spec. */
  datatype GCPMachineTemplateResource = GCPMachineTemplateResource(spec: GCPMachineSpec)

  /** The template's own spec, which wraps the template body. */
  datatype GCPMachineTemplateSpec = GCPMachineTemplateSpec(template: GCPMachineTemplateResource)

  /** A machine template object: its name and spec. The machine fields are
      therefore reached as `spec.template.spec`. */
  datatype GCPMachineTemplate = GCPMachineTemplate(name: string, spec: GCPMachineTemplateSpec)

  /** One entry of a field error list: a forbidden change at a field path, or an
      internal error attached to no field. */
  datatype FieldError =
    | Forbidden(path: seq<string>, detail: string)
    | InternalError(detail: string)

  /** The error an entry point rejects with: an "invalid object" error naming the
      kind, the object and the field errors, or one of the two plain errors of the
      confidential-compute rule (the second names the supported series). */
  datatype ValidationError =
    | Invalid(kind: string, name: string, causes: seq<FieldError>)
    | RequiresTerminate
    | UnsupportedSeries(supported: string)
}
