/** Value types shared by the model of a reflection-based project content. */
module DomTypes {

  datatype Option<T> = None | Some(value: T)

  /** The identity of a referenced assembly, as the registry looks it up. */
  datatype AssemblyName = AssemblyName(fullName: string)

  /** An opaque handle on another project content held by the registry. */
  datatype ProjectContentHandle = ProjectContentHandle(id: nat)

  /** An assembly-level attribute record, already converted from reflection data. */
  datatype AssemblyAttribute = AssemblyAttribute(attributeTypeName: string)

  /** A UTC file time in ticks; `MinTime` is the default `DateTime` value. */
  type Time = int
  const MinTime: Time := 0

  /** The outcome of asking the file system for an assembly's last write time. */
  datatype WriteTimeProbe = WriteTime(ticks: Time) | ProbeFailed
}
