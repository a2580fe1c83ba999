# Edge HTML rewriter: word wrapping and request routing

A model, in Dafny, of the logic of a small Fastly Compute@Edge app
(`src/main.rs`) that proxies `https://example.com` and rewrites its HTML at the
edge. Almost all of the app hands work to the platform and to the `lol_html`
streaming rewriter; two pieces of logic belong to the app itself and are
modelled here:

- **The `h1` text handler** (`h1_wrap.dfy`, with `words.dfy`). Each text
  fragment of an `h1` element that is not the last fragment of its text node
  is split on the single character `' '`; every piece, empty pieces included,
  is wrapped in `<span>…</span>`; the wrapped pieces are concatenated in order
  and replace the fragment as HTML. The last fragment of a text node is left
  alone, and the handler always succeeds. `Words.Split` has the behaviour of
  Rust's `str::split` on a one-character pattern. `H1Wrap.WrapWords` is the
  specification of the replacement; `H1Wrap.WrapWordsFold` is the source's
  fold, an accumulator that each wrapped piece is appended to, written as a
  loop and proved to compute `WrapWords`. `H1Wrap.Unwrap` reads a sequence of
  spans back, the inverse used to state what the replacement keeps.
- **The entry point's routing** (`router.dfy`). `/robots.txt` is answered
  locally with `200` and a fixed body. Any other request gets `Host:
  example.com`, loses `Accept-Encoding`, and is sent to the `example_com`
  backend. A `200` origin response comes back with its body rewritten, any
  other response comes back unchanged, and a send failure is the entry
  point's error. Sending is the parameter `send`, and the HTML rewriter is the
  parameter `rewrite`. `Router.Outcome` records which way a request went and
  what was sent.

`results.dfy` holds the `Option` and `Result` datatypes the two modules share.

## Model

| member | source | states |
|---|---|---|
| Words.Split | src/main.rs:50 | always at least one piece; no piece contains the separator |
| Words.SplitAbsent | src/main.rs:50 | a character absent from the input is absent from every piece |
| Words.SplitJoin | src/main.rs:50 | joining the pieces with the separator gives back the input |
| Words.SplitCount | src/main.rs:50 | there is exactly one piece more than the input has separators |
| Words.SplitNoSep | src/main.rs:50 | an input without the separator is the single piece itself, the empty input giving one empty piece |
| Words.SplitPrefix | src/main.rs:50 | a separator-free word followed by the separator is split off as the first piece, the rest being split on its own |
| Words.SplitUnique | src/main.rs:50 | any separator-free pieces that join back to the input are exactly the split: split is determined by its round trip |
| Words.FlattenSplit | src/main.rs:50 | the pieces concatenated are the input with every separator removed: all other characters are kept, in order |
| H1Wrap.SpanWrap | src/main.rs:51 | definition: one piece between "<span>" and "</span>", as the `format!` builds it; used by every lemma below |
| H1Wrap.ConcatSpans | src/main.rs:52-55 | definition: the fold that appends each wrapped piece to an accumulator starting empty; ConcatSpansCons and UnwrapConcatSpans state its properties |
| H1Wrap.WrapWords | src/main.rs:48-55 | definition of the replacement text: split on ' ', wrap, concatenate; WrapWordsExample, WrapWordsNoSpace, WrapWordsNoSpaceLeft, WrapWordsRoundTrip and WrapWordsNotInjective state its properties |
| H1Wrap.WrapWordsFold | src/main.rs:48-55 | the loop that appends each wrapped piece to an accumulator starting from the empty string computes exactly WrapWords |
| H1Wrap.HandleFragment | src/main.rs:46-59 | the handler always succeeds; it replaces the fragment if and only if the fragment is not the last of its text node, and then with WrapWords of the fragment as HTML |
| H1Wrap.Emit | src/main.rs:47-57 | definition: a kept fragment stays as it is, a replaced one becomes the replacement content; used by TextNodeOutput |
| H1Wrap.TextNodeOutput | src/main.rs:46-57 | definition: the handler applied to each fragment of one text node, only the final one flagged last; TextNodeOutputFragments, TextNodeOutputWhole and TextNodeOutputSplitWord state its properties |
| H1Wrap.ConcatSpansCons | src/main.rs:51-55 | putting a piece in front puts its span in front of the concatenated output |
| H1Wrap.WrapWordsTwoWords | src/main.rs:50-55 | two space-free words with one space between them become two spans, in order |
| H1Wrap.WrapWordsExample | src/main.rs:45 | "Example Domain" becomes "<span>Example</span><span>Domain</span>" |
| H1Wrap.WrapWordsNoSpace | src/main.rs:50-51 | a fragment without a space is wrapped whole; the empty fragment becomes "<span></span>" |
| H1Wrap.WrapWordsNoSpaceLeft | src/main.rs:50-55 | no space is left in the replacement, inside or outside the tags |
| H1Wrap.WrapWordsNotInjective | src/main.rs:50-55 | "a</span><span>b" and "a b" differ but give the same replacement: the replacement does not determine a fragment that holds markup |
| H1Wrap.Unwrap | src/main.rs:51-55 | whatever the span reader accepts is re-produced exactly by concatenating the spans of what it read |
| H1Wrap.UnwrapConcatSpans | src/main.rs:51-55 | the concatenated spans of pieces without '<' are read back as exactly those pieces |
| H1Wrap.WrapWordsRoundTrip | src/main.rs:50-55 | for a fragment without '<' the replacement reads back as its split: one span per space plus one, which join back to the fragment and hold every non-space character in order |
| H1Wrap.TextNodeOutputFragments | src/main.rs:46-57 | a text node delivered as fragments comes out as each non-final fragment wrapped on its own, followed by the final fragment unchanged |
| H1Wrap.TextNodeOutputWhole | src/main.rs:46-57 | a text node delivered as its whole text and then an empty final fragment comes out as WrapWords of the text |
| H1Wrap.TextNodeOutputSplitWord | src/main.rs:46-57 | a space-free word split over two fragments comes out as two spans, which differ from the single span of the whole word |
| Router.RobotsResponse | src/main.rs:14-15 | status 200, body "User-agent: *\nDisallow: /", no headers |
| Router.SetHeader | src/main.rs:18 | the header has exactly the one given value; the path and every other header are unchanged |
| Router.RemoveHeader | src/main.rs:20 | the header is absent; the path and every other header are unchanged |
| Router.BackendRequest | src/main.rs:17-20 | Host is exactly "example.com", Accept-Encoding is absent, the path and every other header are unchanged |
| Router.Route | src/main.rs:13-28 | robots if and only if the path is "/robots.txt", with the fixed 200 answer and nothing sent; otherwise the prepared request is sent to "example_com"; a send error, a 200 response (rewritten) and any other status (passed through) are told apart by the origin's answer |
| Router.RewriteHtml | src/main.rs:31-72 | the rewritten response keeps the origin's status and headers and its body is the rewriter's output on the origin body |
| Router.Handle | src/main.rs:12-29 | the entry point fails exactly when the path is not "/robots.txt" and sending the prepared request fails; HandleRobots, HandleSendsBackendRequest and HandleOrigin state its answers |
| Router.HandleRobots | src/main.rs:14-15 | for "/robots.txt" the entry point returns the fixed response whatever the origin would answer |
| Router.HandleSendsBackendRequest | src/main.rs:17-21 | for any other path the result depends on the origin only through its answer to the prepared request on the "example_com" backend |
| Router.HandleOrigin | src/main.rs:21-28 | a send failure is returned as the error; a 200 answer is returned with status and headers kept and body rewritten; any other answer is returned unchanged |

## Left out

- The `lol_html` rewriter (tokenizing, selector matching, `rewrite_str`, `after`, `set_inner_content`, `replace`) is not part of this model; the HTML rewrite of a 200 response is the abstract parameter `rewrite` of `Router.Handle`.
- The `meta[name]` and `style` element handlers (src/main.rs:35-43) are calls into that rewriter with no logic of their own, and are not modelled.
- `FONT_LINKS` and `STYLE` (src/main.rs:8-9) are the contents of files that are not part of this model.
- How the rewriter cuts a text node into fragments is not modelled: `H1Wrap.TextNodeOutput` takes the fragments and marks only the final one as last.
- Sending to the backend, `clone_without_body`, `into_body_str` and `with_body` are platform I/O: sending is the parameter `send`, and a response is a record of status, headers and body.
- Header names are of type `Router.HeaderName`, which admits only names without upper-case ASCII letters, the form the platform normalises names to; the request method, the rest of the URL and the request body play no part in the decision and are not modelled.
- The `println!` logging (src/main.rs:24) and the panic of `.unwrap()` when the rewrite fails (src/main.rs:69) are left out; `rewrite` is a total function.
- H1Wrap.WrapWordsRoundTrip: the read-back is stated only for fragments without '<'. WrapWords is not injective on fragments that hold markup: "a</span><span>b" and "a b" give the same replacement (H1Wrap.WrapWordsNotInjective), so no reader can recover every fragment. Excluding '<' altogether also excludes harmless raw text such as "1<2", which the HTML tokenizer can deliver as text; the other properties of the replacement hold for every fragment.
