/** The C and the Rust normaliser side by side. */
module PathAgreement {
  import opened Path
  import PathC
  import VfsRoute

  /** On one terminated input of at most a path buffer's size, and an output
      buffer of at least that size, both normalisers give the same verdict and
      the same path. */
  method NormalizeBoth(inp: array<u8>, out: array<u8>) returns (c: bool, rust: bool, other: array<u8>)
    requires inp != out && PATH_MAX <= out.Length
    requires 0 in inp[..]
    modifies out
    ensures c == rust
    ensures c ==> CStr(out[..]) == CStr(other[..])
  {
    ghost var s := CStr(inp[..]);
    NormalFits(s, out.Length);
    c := PathC.PathNormalize(inp, out, out.Length);
    rust, other := VfsRoute.Normalize(inp[..]);
    if c {
      var st := Normal(s, out.Length).value;
      VfsRoute.TerminatedRender(out[..], |Render(st)|, st);
    }
  }
}
