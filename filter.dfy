/**
 * The filter program as a whole (main.go:37-100): extract the front matter,
 * optionally write it back re-encoded between two "---\n" lines, then hand
 * the body to the Markdown renderer, which writes to the same output.
 *
 * Standard input is the parameter `source` and standard output is the
 * returned sequence `out`, appended to in the order the program writes.  The
 * YAML decoder's verdict, the YAML encoder and the Markdown renderer are
 * parameters: nothing inside them is modelled.
 */
module Filter {
  import opened Wrappers
  import opened Bytes
  import opened FrontMatter

  /** What an external writer puts on the output stream, and whether it reported success. */
  datatype Emitted = Emitted(bytes: seq<byte>, ok: bool)

  /** How the process ends: normally, or through `log.Fatal`. */
  datatype Status = Success | Fatal

  /**
   * `main` from the front-matter block on.  `encode(span)` stands for
   * `enc.Encode(meta.Content[0])` on the node decoded from `span`, and
   * `render(body)` for `md.Convert(body, out)`.
   */
  method Format(source: seq<byte>, skipMetadata: bool, valid: seq<byte> -> bool,
                encode: seq<byte> -> Emitted, render: seq<byte> -> Emitted)
    returns (out: seq<byte>, status: Status)
    // Without accepted front matter, or with it suppressed, the renderer's
    // output is all there is, and the renderer alone decides the status.
    ensures !HasPrefix(source, Opening) ==> out == render(source).bytes
    ensures Close(source, valid).None? ==>
      out == render(source).bytes && (status == Success <==> render(source).ok)
    ensures Close(source, valid).Some? && skipMetadata ==>
      out == render(Body(source, valid)).bytes && (status == Success <==> render(Body(source, valid)).ok)
    // Otherwise the re-encoded block comes first, fenced by "---\n" lines.
    ensures Close(source, valid).Some? && !skipMetadata && encode(Span(source, valid)).ok ==>
      out == Opening + encode(Span(source, valid)).bytes + Opening + render(Body(source, valid)).bytes &&
      (status == Success <==> render(Body(source, valid)).ok)
    // An encoding error is fatal: the renderer never runs, and the block stays unclosed.
    ensures Close(source, valid).Some? && !skipMetadata && !encode(Span(source, valid)).ok ==>
      out == Opening + encode(Span(source, valid)).bytes && status == Fatal
  {
    out := [];
    var found, span, body := Extract(source, valid);
    if found && !skipMetadata {
      out := out + Opening;
      var encoded := encode(span);
      out := out + encoded.bytes;
      if !encoded.ok {
        status := Fatal;
        return;
      }
      out := out + Opening;
    }
    var rendered := render(body);
    out := out + rendered.bytes;
    status := if rendered.ok then Success else Fatal;
  }
}
