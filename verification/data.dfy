/** The copy-on-write byte buffer of data.cc. */
module DataBuffer {
  import opened Bytes

  const DEFAULT_SIZE := 0x4000
  const GROWTH := 1024

  /** m_bufsize is m_data.Length: every constructor and MakeSpace sets both together. */
  class Data {
    var m_data: array<Byte>
    var m_datasize: nat
    var m_endpoint: int
    var m_externalData: array<Byte>
    var m_external: bool

    predicate Valid()
      reads this
    {
      && m_data != m_externalData
      && m_datasize <= (if m_external then m_externalData.Length else m_data.Length)
    }

    /** What a reader sees through GetData() and GetSize(). */
    function Contents(): (s: seq<Byte>)
      requires Valid()
      reads this, m_data, m_externalData
    {
      if m_external then m_externalData[..m_datasize] else m_data[..m_datasize]
    }

    constructor ()
      ensures Valid() && Contents() == [] && !m_external && m_endpoint == -1
      ensures fresh(m_data) && fresh(m_externalData) && m_data.Length == 0x4000
      ensures forall i :: 0 <= i < m_data.Length ==> m_data[i] == 0
    {
      m_data := new Byte[DEFAULT_SIZE](_ => 0);
      m_externalData := new Byte[0];
      m_datasize, m_endpoint, m_external := 0, -1, false;
    }

    constructor Sized(endpoint: int, startsize: nat)
      ensures Valid() && Contents() == [] && !m_external && m_endpoint == endpoint
      ensures fresh(m_data) && fresh(m_externalData) && m_data.Length == startsize
      ensures forall i :: 0 <= i < m_data.Length ==> m_data[i] == 0
    {
      m_data := new Byte[startsize](_ => 0);
      m_externalData := new Byte[0];
      m_datasize, m_endpoint, m_external := 0, endpoint, false;
    }

    /** Borrows the caller's bytes without copying them. */
    constructor Borrow(validData: array<Byte>, size: nat)
      requires size <= validData.Length
      ensures Valid() && m_external && m_externalData == validData && m_endpoint == -1
      ensures fresh(m_data) && m_data.Length == 0
      ensures Contents() == validData[..size]
    {
      m_data := new Byte[0];
      m_externalData := validData;
      m_datasize, m_endpoint, m_external := size, -1, true;
    }

    /** The copy owns its own buffer; only the borrowed bytes can be shared. */
    constructor Copy(other: Data)
      requires other.Valid()
      ensures Valid() && fresh(m_data) && m_data.Length == other.m_data.Length
      ensures m_external == other.m_external && m_externalData == other.m_externalData
      ensures m_endpoint == other.m_endpoint
      ensures Contents() == other.Contents()
      ensures !m_external ==> m_data[..] == other.m_data[..]
    {
      var copy := new Byte[other.m_data.Length];
      if !other.m_external {
        forall i | 0 <= i < copy.Length {
          copy[i] := other.m_data[i];
        }
      }
      m_data := copy;
      m_datasize, m_endpoint := other.m_datasize, other.m_endpoint;
      m_externalData, m_external := other.m_externalData, other.m_external;
    }

    /** Grows the owned buffer; the old bytes keep their places and the new ones are 0. */
    method MakeSpace(desiredsize: nat)
      requires Valid()
      modifies this`m_data
      ensures Valid() && (m_data == old(m_data) || fresh(m_data))
      ensures unchanged(old(m_data)) && desiredsize <= m_data.Length
      ensures m_data.Length == if old(m_data.Length) < desiredsize then desiredsize + 1024 else old(m_data.Length)
      ensures m_data[..old(m_data.Length)] == old(m_data[..])
      ensures forall i :: old(m_data.Length) <= i < m_data.Length ==> m_data[i] == 0
      ensures Contents() == old(Contents())
    {
      if m_data.Length < desiredsize {
        var newbuf := new Byte[desiredsize + GROWTH](_ => 0);
        forall i | 0 <= i < m_data.Length {
          newbuf[i] := m_data[i];
        }
        m_data := newbuf;
      }
    }

    method CopyOnWrite(desiredsize: nat)
      requires Valid()
      modifies this`m_data, this`m_external, m_data
      ensures Valid() && !m_external && (m_data == old(m_data) || fresh(m_data))
      ensures Contents() == old(Contents())
      ensures old(m_data.Length) <= m_data.Length
      ensures !old(m_external) ==> m_data == old(m_data) && m_data[..] == old(m_data[..])
      ensures old(m_external) ==> desiredsize <= m_data.Length
      ensures forall i :: m_datasize <= i < old(m_data.Length) ==> m_data[i] == old(m_data[i])
    {
      if m_external {
        MakeSpace(if desiredsize < m_datasize then m_datasize else desiredsize);
        forall i | 0 <= i < m_datasize {
          m_data[i] := m_externalData[i];
        }
        m_external := false;
      }
    }

    /** Makes the bytes writable and at least requiredsize of them addressable. */
    method GetBuffer(requiredsize: nat)
      requires Valid()
      modifies this`m_data, this`m_external, m_data
      ensures Valid() && !m_external && (m_data == old(m_data) || fresh(m_data))
      ensures requiredsize <= m_data.Length && old(m_data.Length) <= m_data.Length
      ensures Contents() == old(Contents())
      ensures !old(m_external) ==> m_data[..old(m_data.Length)] == old(m_data[..])
      ensures forall i :: m_datasize <= i < old(m_data.Length) ==> m_data[i] == old(m_data[i])
    {
      CopyOnWrite(requiredsize);
      if requiredsize > 0 {
        MakeSpace(requiredsize);
      }
    }

    /** The asserts of the original are its demands on the caller. With -1 the last byte that is not zero is
        searched for, and the size becomes its position, which leaves that byte itself outside. */
    method ReleaseBuffer(datasize: int)
      requires Valid() && !m_external
      requires if datasize == -1 then m_data.Length > 0 else 0 <= datasize <= m_data.Length
      modifies this`m_datasize
      ensures Valid() && Contents() == m_data[..m_datasize]
      ensures datasize >= 0 ==> m_datasize == datasize
      ensures datasize == -1 ==>
        && m_datasize < m_data.Length && (m_datasize > 0 ==> m_data[m_datasize] != 0)
        && forall i :: m_datasize < i < m_data.Length ==> m_data[i] == 0
    {
      if datasize >= 0 {
        m_datasize := datasize;
      } else {
        m_datasize := m_data.Length - 1;
        while m_datasize > 0 && m_data[m_datasize] == 0
          invariant m_datasize < m_data.Length
          invariant forall i :: m_datasize < i < m_data.Length ==> m_data[i] == 0
        {
          m_datasize := m_datasize - 1;
        }
      }
    }

    method Zap()
      requires Valid()
      modifies this`m_datasize, m_data
      ensures Valid() && Contents() == [] && m_datasize == 0
      ensures if m_external then m_data[..] == old(m_data[..])
              else forall i :: 0 <= i < m_data.Length ==> m_data[i] == 0
    {
      if !m_external {
        forall i | 0 <= i < m_data.Length {
          m_data[i] := 0;
        }
      }
      m_datasize := 0;
    }

    /** operator=; assigning an object to itself changes nothing. */
    method Assign(other: Data)
      requires Valid() && other.Valid()
      requires this != other ==> m_data != other.m_data && m_data != other.m_externalData
      modifies this, m_data
      ensures Valid() && (m_data == old(m_data) || fresh(m_data))
      ensures Contents() == old(other.Contents())
      ensures m_external == old(other.m_external) && m_externalData == old(other.m_externalData)
      ensures m_endpoint == old(other.m_endpoint)
      ensures old(m_data.Length) <= m_data.Length
      ensures this != other ==> other.Valid() && other.Contents() == old(other.Contents())
    {
      if this == other {
        return;
      }
      MakeSpace(other.m_data.Length);
      forall i | 0 <= i < other.m_data.Length {
        m_data[i] := other.m_data[i];
      }
      m_datasize, m_endpoint := other.m_datasize, other.m_endpoint;
      m_externalData, m_external := other.m_externalData, other.m_external;
    }

    /** Writes src at offset and returns the advanced offset; the data size is not touched. */
    method MemCpy(offset: nat, src: seq<Byte>) returns (next: nat)
      requires Valid()
      modifies this`m_data, this`m_external, m_data
      ensures Valid() && !m_external && (m_data == old(m_data) || fresh(m_data))
      ensures next == offset + |src| <= m_data.Length && old(m_data.Length) <= m_data.Length
      ensures m_data[offset..next] == src
      ensures !old(m_external) ==>
        forall i :: 0 <= i < old(m_data.Length) && !(offset <= i < next) ==> m_data[i] == old(m_data[i])
      ensures forall i :: 0 <= i < m_datasize && !(offset <= i < next) ==> m_data[i] == old(Contents()[i])
    {
      GetBuffer(offset + |src|);
      assert m_data[..m_datasize] == old(Contents());
      label before:
      forall i | 0 <= i < |src| {
        m_data[offset + i] := src[i];
      }
      next := offset + |src|;
    }
  }

  /** memcpy(buf + at, src, |src|). */
  method CopyBytes(buf: array<Byte>, at: nat, src: seq<Byte>)
    requires at + |src| <= buf.Length
    modifies buf
    ensures buf[..at] == old(buf[..at]) && buf[at..at + |src|] == src
    ensures buf[at + |src|..] == old(buf[at + |src|..])
  {
    forall i | 0 <= i < |src| {
      buf[at + i] := src[i];
    }
  }

  /** No buffer owned by one object can be reached through the other. */
  ghost predicate Apart(a: Data, b: Data)
    reads a, b
  {
    a.m_data != b.m_data && a.m_data != b.m_externalData && b.m_data != a.m_externalData
  }

  /** One use of the public interface on an object. */
  datatype Operation =
    | Writable(size: nat)
    | Release(datasize: int)
    | Clear
    | Write(offset: nat, bytes: seq<Byte>)
    | AssignFromOther

  /** Any use of one object leaves another object, and every borrowed byte, as they were. */
  method Apply(a: Data, b: Data, op: Operation)
    requires a != b && a.Valid() && b.Valid() && Apart(a, b)
    modifies a, a.m_data
    ensures a.Valid() && b.Valid() && Apart(a, b)
    ensures a.m_data == old(a.m_data) || fresh(a.m_data)
    ensures b.Contents() == old(b.Contents())
    ensures a.m_externalData == old(a.m_externalData) || a.m_externalData == b.m_externalData
    ensures op == AssignFromOther ==> a.Contents() == b.Contents()
  {
    match op
    case Writable(size) => a.GetBuffer(size);
    case Release(size) =>
      if !a.m_external && (if size == -1 then a.m_data.Length > 0 else 0 <= size <= a.m_data.Length) {
        a.ReleaseBuffer(size);
      }
    case Clear => a.Zap();
    case Write(offset, bytes) =>
      var next := a.MemCpy(offset, bytes);
    case AssignFromOther => a.Assign(b);
  }

  /** The same over every run of uses, from every state of both objects. */
  method ApplyAll(a: Data, b: Data, ops: seq<Operation>)
    requires a != b && a.Valid() && b.Valid() && Apart(a, b)
    modifies a, a.m_data
    ensures a.Valid() && b.Valid() && Apart(a, b)
    ensures b.Contents() == old(b.Contents())
    ensures old(a.m_externalData[..]) == old(a.m_externalData)[..]
    ensures b.m_externalData[..] == old(b.m_externalData[..])
  {
    for k := 0 to |ops|
      invariant a.Valid() && b.Valid() && Apart(a, b)
      invariant a.m_data == old(a.m_data) || fresh(a.m_data)
      invariant b.Contents() == old(b.Contents())
      invariant old(a.m_externalData[..]) == old(a.m_externalData)[..]
      invariant b.m_externalData[..] == old(b.m_externalData[..])
    {
      Apply(a, b, ops[k]);
    }
  }
}
