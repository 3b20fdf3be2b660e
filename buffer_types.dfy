/** Buffer.cpp: the names of the two buffer implementations. */
module BufferTypes {

  datatype BufferType = ArrayBufferType | ArrayArrayBufferType

  /** `Buffer::bufferTypeToString`: each type's name. */
  function ToString(t: BufferType): (r: string)
    ensures t == ArrayBufferType ==> r == "ArrayBuffer"
    ensures t == ArrayArrayBufferType ==> r == "ArrayArrayBuffer"
  {
    match t
    case ArrayBufferType => "ArrayBuffer"
    case ArrayArrayBufferType => "ArrayArrayBuffer"
  }

  /** `Buffer::bufferTypeFromString`: the two exact names map back, anything else
      falls back to the contiguous buffer. */
  function FromString(s: string): (r: BufferType)
    ensures r == ArrayArrayBufferType <==> s == "ArrayArrayBuffer"
    ensures s != "ArrayBuffer" && s != "ArrayArrayBuffer" ==> r == ArrayBufferType
  {
    if s == "ArrayBuffer" then ArrayBufferType
    else if s == "ArrayArrayBuffer" then ArrayArrayBufferType
    else ArrayBufferType
  }

  /** Naming a type and reading the name back gives the type; so the mapping
      to names is one-to-one. */
  lemma NameRoundTrip(t: BufferType, u: BufferType)
    ensures FromString(ToString(t)) == t
    ensures ToString(t) == ToString(u) ==> t == u
  {
  }
}
