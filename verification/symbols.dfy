/** The parts of google_breakpad::Module that the DWARF and STABS readers fill in. */
module Symbols {
  import opened Addresses

  /** A source file, known by the identity of its Module::File. */
  type FileId = int

  /** A source line. Vectors hold these by value. */
  datatype Line = Line(address: Address, size: Address, file: FileId, number: int) {
    function End(): int { address + size }
  }

  /** A function. The readers share these, and fill in size and lines in place. */
  class Function {
    const name: string
    const address: Address
    var size: Address
    var lines: seq<Line>

    constructor (name: string, address: Address, size: Address)
      ensures this.name == name && this.address == address && this.size == size && lines == []
    {
      this.name := name;
      this.address := address;
      this.size := size;
      lines := [];
    }

    function End(): int
      reads `size
    {
      address + size
    }
  }
}
