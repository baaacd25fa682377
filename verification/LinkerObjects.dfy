/** The linker's sections, lists and memory regions, with the fields the layout updates. */
module LinkerObjects {
  import opened FixedWidth

  /** The flag bits of a section that the layout looks at. */
  datatype Flags = Flags(alloc: bool, write: bool, execinstr: bool, tls: bool, merge: bool, strings: bool,
                         linkOrder: bool)

  class InputSection {
    const name: string
    const nobits: bool
    const flags: Flags
    const addralign: uint64
    const size: uint64
    const hasRelocs: bool
    var outSecOff: uint64
  }

  class InputSectionDescription {
    var sections: seq<InputSection>
  }

  /** A command inside an output section; the value of a dot assignment is given. */
  datatype SectionCommand =
    | Description(description: InputSectionDescription)
    | SetDot(value: uint64)
    | Data(size: uint64)

  datatype MemoryRegion = MemoryRegion(origin: uint64, length: uint64)
}
