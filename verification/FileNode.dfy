/** The records of vfs.h. */
module FileNode {
  /** A data buffer: it is written once, when it is allocated, and holds its text and a NUL. */
  class Buffer {
    const text: string

    constructor (text: string)
      ensures this.text == text
    {
      this.text := text;
    }
  }

  /** The fields of a node, as a value */
  datatype Record = Record(name: string, isDir: bool, data: Buffer?, dataSize: nat,
                           parent: Node, firstChild: Node?, nextSibling: Node?)

  class Node {
    var name: string
    var isDir: bool
    var data: Buffer?
    var dataSize: nat
    var parent: Node
    var firstChild: Node?
    var nextSibling: Node?

    function Fields(): Record
      reads this
    {
      Record(name, isDir, data, dataSize, parent, firstChild, nextSibling)
    }

    /** A new node without data, children or siblings */
    constructor (name: string, isDir: bool, parent: Node)
      ensures Fields() == Record(name, isDir, null, 0, parent, null, null)
    {
      this.name, this.isDir, this.data, this.dataSize := name, isDir, null, 0;
      this.parent, this.firstChild, this.nextSibling := parent, null, null;
    }

    /** The root directory is its own parent. */
    constructor Root()
      ensures Fields() == Record("/", true, null, 0, this, null, null)
    {
      this.name, this.isDir, this.data, this.dataSize := "/", true, null, 0;
      this.parent, this.firstChild, this.nextSibling := this, null, null;
    }
  }
}
