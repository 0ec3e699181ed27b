# first_word

A Dafny model of `first_word` from `ex02/src/main.rs`, a small example
from a course on the ownership rules of Rust. The function takes a
`&String`, walks over its bytes with `bytes.iter().enumerate()`, and returns
the slice `&s[0..i]` in front of the first byte equal to `b' '`. If there is
no space, it returns the whole string `&s[..]`. Only the byte 0x20 is a
separator. Tabs, newlines and other whitespace are part of the word.

The model works on bytes because the source does:

- `Utf8` declares `byte`, RFC 3629 well-formedness (`ValidUtf8`), the
  standard library's `is_char_boundary` test (`IsCharBoundary`) and
  byte-range string slicing (`StrSlice`). `StrSlice` gives `None` where
  Rust would panic.
- `FirstWord` holds the specification function `FirstWord`, defined
  recursively one byte at a time. It also holds the method `FirstWordOf`.
  This method is the source's loop with its early return, and it is
  proved equal to the function. The lemmas give the function's properties.
  The last part is the `"hello world"` call from `main`.

The slice the source returns borrows from `s`. The model returns the bytes
of that slice and states that they are a prefix `s[..|word|]` of `s`.

## Model

| member | source | states |
|---|---|---|
| `FirstWord.FirstWordOf` | ex02/src/main.rs:1-11 | the returned word is a prefix of `s`; no byte before its end is a space; it ends at a space or at the end of `s`; it equals `FirstWord(s)`; slicing `s` from 0 to the word's end succeeds (does not panic) and yields exactly the word |
| `FirstWord.FirstWord` | ex02/src/main.rs:1-11 | the specification function: its result is a prefix of `s` that stops right before the first space, or at the end of `s` when there is none |
| `FirstWord.FirstWordCharacterized` | ex02/src/main.rs:4-10 | for any `e <= \|s\|`, `s[..e]` is the first word if and only if no space comes before `e` and `e` is a space or the end (so the end of the word is unique) |
| `FirstWord.EndsAtFirstSpace` | ex02/src/main.rs:4-6 | when `s[i]` is the first space, the word has length `i` and `s[\|word\|]` is a space |
| `FirstWord.NoSpaceInWord` | ex02/src/main.rs:4-8 | the word never contains the space byte |
| `FirstWord.WholeStringWhenNoSpace` | ex02/src/main.rs:10 | the word is all of `s` if and only if `s` has no space |
| `FirstWord.EmptyWord` | ex02/src/main.rs:4-10 | the word is empty if and only if `s` is empty or starts with a space |
| `FirstWord.Idempotent` | ex02/src/main.rs:4-10 | taking the first word of the first word gives the same word |
| `FirstWord.WordIsStr` | ex02/src/main.rs:6 | for valid UTF-8 input, the word ends on a character boundary, `&s[0..i]` gives exactly the word, and the word is valid UTF-8 |
| `FirstWord.HelloWorld` | ex02/src/main.rs:18-24 | the first word of the bytes of `"hello world"` is the bytes of `"hello"` |
| `FirstWord.HelloWorldWord` | ex02/src/main.rs:18-20 | running the method on `"hello world"` returns `"hello"` |
| `Utf8.SliceIsStr` | ex02/src/main.rs:6 | a slice `&s[lo..hi]` of valid UTF-8 that does not panic (both ends in range, in order and on character boundaries) is itself valid UTF-8 |
| `Utf8.BoundaryPrefixValid` | ex02/src/main.rs:6 | cutting valid UTF-8 at a character boundary leaves a valid UTF-8 prefix, so the slice is a `str` |

## Left out

- What the borrow checker enforces is not modelled. For example, `s.clear()` at line 22 would be rejected while `word` is alive. The model's word is a value, not a reference into `s`.
- The rest of `main` in `ex02/src/main.rs` is not modelled: the vector indexing and comparisons (lines 27-40), the `String` conversions, and line 42, which returns a `String` from a `main` that returns `()` and so does not compile. None of it computes anything.
- The `test()` function (lines 13-15) is not modelled. It returns `()`.
- The model has no console output (`println!`).
- `ex07/src/main.rs` is not modelled. It shows the order in which `Drop` runs. That order is compiler semantics, and the `drop` bodies only print. Its commented-out blocks never run.
- `ex06/src/main.rs` is not modelled. It makes one `Option::map` call on a library type and does not compile as written.
- `ex01/mytest/src/main.rs` and `ex03/src/main.rs` are not modelled. They show pattern binding modes (`ref`, `ref mut`, `mut`), which are compile-time choices.
- `Utf8.IsCharBoundary` follows the standard library's test for slice ends. The code of the standard library is not part of this model.
