# mdfmt front-matter scanner, modelled in Dafny

mdfmt is a filter that reads a Markdown document on standard input and writes
a reformatted one on standard output. Before rendering, `main` looks for a
YAML front-matter block: the input must start with `---\n`. From offset 4 it
searches for a closing marker. It prefers `\n---` and falls back to `\n...`
only when `\n---` does not occur anywhere in the rest of the input. It then
hands the span from offset 4 up to that marker to `yaml.Unmarshal` and
accepts it only when decoding returns no error and the decoded node has
exactly one content child. If the decoder rejects it, the cursor moves past the marker
and the search is repeated. If it accepts, the body handed to the renderer is
everything after the 4-byte marker. Unless `-skipMetadata` is set, the decoded
node is written back, re-encoded, between two `---\n` lines.

This project models that block (main.go:40-75) and the hand-off to the
renderer (main.go:97):

- `wrappers.dfy` holds `Option`.
- `bytes.dfy` (module `Bytes`) holds a byte type, occurrence predicates, and
  `bytes.Index` as `IndexOf`: first occurrence or -1.
- `frontmatter.dfy` (module `FrontMatter`) holds the scanner:
  - `CloseFrom` and `Close` are the specification of the retry loop.
  - `Extract` and `FindEnd` are imperative methods proved against them.
  - The remaining lemmas characterise the result without the cursor.
- `filter.dfy` (module `Filter`) holds `Format`, the output stream of `main`,
  built up as an appended byte sequence.

The YAML check (`yaml.Unmarshal` succeeding with exactly one top-level node)
is the parameter `valid`. The YAML encoder and the Markdown renderer are
parameters that return the bytes they write and whether they succeeded.

The central result is `CloseIsLeftmostAccepted` together with
`CloseNoneIffNoneAccepted`. Call an offset *eligible* when it holds a `\n---`
at or after offset 4, or a `\n...` that no later `\n---` follows. The block
closes at the leftmost eligible offset whose span passes the YAML check, and
in no other case. This rests on one fact about the markers: bytes 1-3 of a
marker are `-` or `.`, never `\n`, so skipping 4 bytes past a rejected marker
skips no other marker (`NoMarkerInside`).

Three behaviours of the code are worth stating plainly:

- The scanner takes a `\n---` whenever one exists, even when a `\n...` is
  nearer (`DashPreferred`, `NearerDotLoses`).
- The marker is matched as a substring, so `\n----` and `\n---x` also close
  the block. `Eligible` uses plain occurrences.
- The body keeps the newline that ends the closing line:
  `---\nkey: value\n---\nBody text` gives `\nBody text` (`BodyKeepsNewline`).

## Model

| member | source | states |
|---|---|---|
| `Bytes.HasPrefix` | main.go:40 | `bytes.HasPrefix`: the input is at least as long as the prefix and agrees with it byte by byte |
| `Bytes.IndexOf` | main.go:48 | `bytes.Index`: -1 exactly when the needle occurs nowhere; otherwise an offset where it occurs with no occurrence before it |
| `FrontMatter.PassEnd` | main.go:47-52 | one pass of the marker loop: -1 exactly when neither marker occurs; the first `\n---` whenever one occurs; otherwise the first `\n...` |
| `FrontMatter.FindEnd` | main.go:47-52 | the marker loop, trying `\n---` then `\n...` and stopping at the first that occurs, computes the pass result `PassEnd` |
| `FrontMatter.CloseFrom` | main.go:46-61 | an accepted offset lies at or after the cursor, starts a marker, and is preceded by a span from offset 4 that `valid` accepts |
| `FrontMatter.Close` | main.go:40-61 | front matter is found only after a `---\n` prefix; it closes at an offset of at least 4 that starts a marker, with a valid span `source[4..k]` |
| `FrontMatter.Span` | main.go:57 | the decoded span starts at offset 4, is valid, and is followed directly by a closing marker; it is empty when there is no front matter |
| `FrontMatter.Body` | main.go:63 | the body is a suffix of the input; it equals the input exactly when no front matter is found; otherwise it starts 4 bytes after the closing offset |
| `FrontMatter.Extract` | main.go:40-63 | the retry loop terminates with the slices in bounds; it finds front matter exactly when `Close` does and returns `Span` and `Body`; without the `---\n` prefix it returns the input unchanged |
| `FrontMatter.NoMarkerInside` | main.go:59 | no marker starts 1 to 3 bytes after another, so advancing the cursor by `end + 4` skips no candidate |
| `FrontMatter.PassFindsFirstEligible` | main.go:47-52 | one pass from the cursor stops at the first eligible offset, or reports -1 when there is none from the cursor on |
| `FrontMatter.SkipRejected` | main.go:58-60 | after a rejected candidate, the leftmost accepted offset from the cursor equals the one from just past the marker |
| `FrontMatter.CloseFromLeftmost` | main.go:46-61 | from any cursor, the scan returns the leftmost accepted offset from there on, or None when nothing from there on is accepted |
| `FrontMatter.CloseIsLeftmostAccepted` | main.go:40-61 | the block closes at `k` if and only if the input starts with `---\n`, `k` is eligible with a valid span, and no earlier eligible offset has one |
| `FrontMatter.CloseNoneIffNoneAccepted` | main.go:40-54 | there is no front matter if and only if the prefix is missing or no eligible offset has a valid span |
| `FrontMatter.DashPreferred` | main.go:47-52 | if some `\n---` at or after offset 4 has a valid span, the block closes at a `\n---` no later than it, even when a `\n...` is nearer |
| `FrontMatter.DotOnlyAsFallback` | main.go:47-52 | the block closes at a `\n...` only when no `\n---` follows it and every `\n---` after offset 4 was rejected |
| `FrontMatter.BodyKeepsNewline` | main.go:63 | for `---\nk: v\n---\nBody`, the span is `k: v` and the body is `\nBody` |
| `FrontMatter.OpeningTwiceIsNoFrontMatter` | main.go:43-54 | for `---\n---\n`, the search starting at offset 4 finds no marker, and the body is the whole input |
| `FrontMatter.NearerDotLoses` | main.go:47-52 | for `---\na\n...\nb\n---\nc` with both spans valid, the block closes at the `\n---` at offset 11, not at the nearer `\n...` at offset 5 |
| `FrontMatter.RetryPastRejectedMarker` | main.go:57-60 | for `---\n\n---\nk: v\n---\nb` with the empty span rejected, the scan retries, closes at offset 13 with the span `\n---\nk: v` still starting at offset 4, and leaves the body `\nb` |
| `Filter.Format` | main.go:40-100 | if there is no front matter or `-skipMetadata` is set, the output is exactly the renderer's output for the body. Otherwise the output is `---\n` + encoding + `---\n` + renderer output, or stops after the encoding with a fatal status when encoding fails |

## Left out

- Flag parsing and usage text (main.go:19-30): command-line plumbing. `skipMetadata` is a parameter of `Format`. The other three flags configure only the external renderer.
- Reading standard input (main.go:33-36): this is I/O. The input is the parameter `source`, and a read error, which is fatal, is not modelled.
- YAML decoding and encoding (main.go:56-58, 67-69): this is a foreign library. The decoder's verdict is the predicate `valid`. The encoder is a function of the span, standing for the node that the span decodes to. `enc.Close()` is not modelled separately.
- The goldmark parser, its extensions and the formatting renderer (main.go:78-99): external code. `md.Convert` is the `render` parameter.
- `log.Fatal` (main.go:71, 99) becomes the `Fatal` status. The process exit itself is not modelled.
- Errors from `io.WriteString` (main.go:66, 73) are ignored, as in the code.
- The round trip of decoding, re-encoding and decoding again depends entirely on the YAML library, so it is not stated.
