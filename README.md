# Scroll spy, section colours and subtitle wrapping of a portfolio page

The page script `js/main.js` is almost entirely configuration of a 3D
graphics library and an animation library. Three small rules inside it are
its own logic, and this project models and proves them in Dafny:

1. **Active section and navigation highlight** (`scroll_spy.dfy`, module
   `ScrollSpy`). On every scroll event the handler walks the `.section`
   elements in document order and keeps the id of the last one whose
   `offsetTop - clientHeight / 3` the vertical offset has reached, or `''`
   when none is reached. It then clears `active` on every navigation icon
   and sets it again on each icon whose `href` without its first character
   equals that id. `FindCurrent` is the section loop, proved to leave the
   value of the specification function `ActiveId` (built on `LastReached`);
   `UpdateNavIcons` is the icon loop, proved to make each icon active
   exactly when its fragment equals the id it is given; `OnScroll` runs the
   two and so ties every icon to `ActiveId`. The icons are objects in an
   array with a mutable `active` flag. One consequence worth knowing: above every section the id is `''`,
   so an icon whose `href` is `#` (fragment `''`) is then marked active.
2. **Section colours** (`particle_colors.dfy`, module `ParticleColors`).
   The static table from section id to a 24-bit colour, the JavaScript
   channel expressions `color >> 16`, `color >> 8 & 0xFF` and
   `color & 0xFF` (modelled on ToInt32, so they are defined for every
   integer), and the filter that sets up a colour tween only for a section
   whose colour is truthy.
3. **Subtitle wrapping** (`subtitle.dfy`, module `Subtitle`). Each
   character of the subtitle becomes `<span class="char">c</span>`, a space
   becoming `&nbsp;`, and the pieces are joined with no separator. Two
   readers of the markup are modelled: a span-by-span decoder, which is an
   exact inverse for every text, and "delete the tags, then turn `&nbsp;`
   into a space", which recovers every text that does not itself contain
   the six characters `&nbsp;`.

`sections.dfy` (module `Sections`) holds the section record both handlers
read. The vertical offset `pageYOffset` is a parameter (`y: real`) rather
than read from the window.

Not every scroll position has an active section: when the offset is above
every section's adjusted top, `current` stays `''` and no section is active
(`ScrollSpy.NothingReachedMeansEmpty`).

## Model

| member | source | states |
|---|---|---|
| `ScrollSpy.LastReached` | js/main.js:118-125 | the chosen index is -1 or a section the offset has reached, and no later section is reached: the last reached section in document order |
| `ScrollSpy.Reached` | js/main.js:120-122 | the threshold test `pageYOffset >= offsetTop - clientHeight / 3`, in exact arithmetic; what it selects is fixed by `LastReached`, and its monotonicity in the offset by `ReachedSetGrows` |
| `ScrollSpy.ActiveId` | js/main.js:118-125 | the value `current` holds after the section loop: `''` or the id of the `LastReached` section; fixed by `FindCurrent`, `NothingReachedMeansEmpty` and `LastReachedWins` |
| `ScrollSpy.FindCurrent` | js/main.js:118-125 | the section loop leaves in `current` the id of the last reached section, or `''` |
| `ScrollSpy.NothingReachedMeansEmpty` | js/main.js:118 | when no section meets the threshold the active id is the empty string |
| `ScrollSpy.LastReachedWins` | js/main.js:119-125 | a reached section is chosen exactly when no later section is reached: later sections override earlier ones |
| `ScrollSpy.ReachedSetGrows` | js/main.js:122 | the set of reached sections only grows as the offset grows |
| `ScrollSpy.LastReachedMonotone` | js/main.js:119-125 | scrolling further down never moves the chosen section to an earlier index |
| `ScrollSpy.NavIcon.constructor` | js/main.js:99 | a navigation icon with the given `href` and `active` state |
| `ScrollSpy.Fragment` | js/main.js:129 | `href.substring(1)` drops the first character and gives `''` for an empty `href` |
| `ScrollSpy.UpdateNavIcons` | js/main.js:127-132 | afterwards each icon is active exactly when its fragment equals `current`, whatever it was before; no `href` changes |
| `ScrollSpy.AtMostOneActive` | js/main.js:127-132 | when the icons' fragments are pairwise different, at most one icon is active |
| `ScrollSpy.OnScroll` | js/main.js:117-133 | after a scroll event each icon is active exactly when its fragment is the id of the last reached section |
| `ParticleColors.SectionColors` | js/main.js:138-148 | the nine entries of the table; `TableColorsAre24Bit` proves each a nonzero 24-bit colour |
| `ParticleColors.ToInt32` | js/main.js:162-164 | the operand conversion of `>>` and `&`: the signed 32-bit value congruent to the input modulo 2^32 |
| `ParticleColors.ShiftRight` | js/main.js:162-163 | `x >> n`: the ToInt32 value divided by 2^n rounding down; its effect on colours is fixed by `ChannelsOf24Bit` and `ComposeThenChannels` |
| `ParticleColors.LowByte` | js/main.js:163-164 | `x & 0xFF`: the low eight bits of the ToInt32 value; fixed on colours by `ChannelsOf24Bit` and `ComposeThenChannels` |
| `ParticleColors.Red` | js/main.js:162 | `color >> 16`; in 0..255 and the high byte of a 24-bit colour by `ChannelsOf24Bit`, `ComposeThenChannels` |
| `ParticleColors.Green` | js/main.js:163 | `color >> 8 & 0xFF`, with `>>` binding first; the middle byte by `ChannelsOf24Bit`, `ComposeThenChannels` |
| `ParticleColors.Blue` | js/main.js:164 | `color & 0xFF`; the low byte by `ChannelsOf24Bit`, `ComposeThenChannels` |
| `ParticleColors.ChannelsOf24Bit` | js/main.js:162-164 | for a colour in 0..2^24-1 each extracted channel is in 0..255 and `r*65536 + g*256 + b` is the colour |
| `ParticleColors.ComposeThenChannels` | js/main.js:162-164 | extracting the channels of a colour built from three bytes gives those bytes back |
| `ParticleColors.TableColorsAre24Bit` | js/main.js:138-148 | every table entry is a nonzero 24-bit colour, so the channel lemmas apply to all of them |
| `ParticleColors.GetsTween` | js/main.js:152-154 | `if (color)` on the table lookup: the id is a key with a nonzero colour; what it lets through is fixed by `Tweens`, `TweensAt` and `TableSectionsGetTween` |
| `ParticleColors.TweenFor` | js/main.js:155-164 | the tween target of a section: its id and the three channels of its colour; `Tweens` states every tween is one |
| `ParticleColors.Tweens` | js/main.js:150-168 | every tween belongs to a section whose id is a table key with a nonzero colour and carries that colour's channels; there are at most as many tweens as sections |
| `ParticleColors.TweensAppend` | js/main.js:150 | the tweens of two runs of sections are those of the first run followed by those of the second |
| `ParticleColors.TweensAt` | js/main.js:150-154 | section i adds exactly its own tween, in its place, when its colour is truthy, and nothing otherwise |
| `ParticleColors.TableSectionsGetTween` | js/main.js:150-154 | every section whose id is a table key gets its tween |
| `ParticleColors.GetsTweenAsWritten` | js/main.js:152-154 | the same test with the lookup as written, where inherited object members are truthy too; `InheritedNameGetsTween` shows the difference |
| `ParticleColors.TweensAsWritten` | js/main.js:150-154 | the lookup as written: every tween is the table tween of an own key, or a tween to black of an inherited object member; never fewer tweens than the table alone calls for |
| `ParticleColors.InheritedNameGetsTween` | js/main.js:152-154 | a section with id `toString`, not a table key, gets a tween to black as written and none under the table lookup |
| `ParticleColors.AsWrittenAgreesOnOwnKeys` | js/main.js:152-154 | when no section id is an inherited object member, the code as written and the table lookup set up the same tweens |
| `Subtitle.Escape` | js/main.js:65 | `char === ' ' ? '&nbsp;' : char`; fixed by `UnwrapWrapChars`, `StripWrapChars` and `DecodeEscapeAll` |
| `Subtitle.Span` | js/main.js:65 | the `map` callback: one character inside `<span class="char">` and `</span>`; fixed by `SpanAt` and `StripSpan` |
| `Subtitle.WrapChars` | js/main.js:65 | `split('').map(...).join('')`: one span per character, in order, joined with no separator; fixed by `SpanAt`, `WrapCharsAppend`, `WrapCharsLength`, `UnwrapWrapChars` and `WrapCharsUnwrap` |
| `Subtitle.WrapCharsAppend` | js/main.js:65 | wrapping distributes over concatenation: the spans keep the characters' order |
| `Subtitle.WrapCharsLength` | js/main.js:65 | the markup is 27 characters per character plus 5 more per space |
| `Subtitle.SpanAt` | js/main.js:65 | the markup of character i is its span, between the markup of the characters before and after it |
| `Subtitle.UnwrapWrapChars` | js/main.js:65 | reading the markup back span by span, with `&nbsp;` as a space, gives the original text for every text |
| `Subtitle.WrapCharsUnwrap` | js/main.js:65 | any markup the span decoder accepts is exactly the wrapping of what it returns |
| `Subtitle.StripSpan` | js/main.js:65 | deleting the tags from one span leaves its contents, even when the character is `<` |
| `Subtitle.StripWrapChars` | js/main.js:65 | deleting every span tag from the markup leaves the characters with each space as `&nbsp;` |
| `Subtitle.DecodeEscapeAll` | js/main.js:65 | turning `&nbsp;` back into spaces recovers a text that holds no literal `&nbsp;` |
| `Subtitle.RecoverText` | js/main.js:65 | deleting the tags and then decoding `&nbsp;` recovers a text that holds no literal `&nbsp;` |
| `Subtitle.LiteralNbspIsLost` | js/main.js:65 | the proviso is needed: the text `&nbsp;` comes back as a single space |

## Findings

| source | as written | input that shows it | evidently intended | confidence | as-written member | corrected member |
|---|---|---|---|---|---|---|
| js/main.js:152-154 | `sectionColors[sectionId]` is a property read on a plain object literal, so it also finds the members inherited from `Object.prototype`; each is a function or object, hence truthy, and `>>`/`&` turn it into 0 | a section with id `toString` (likewise `constructor`, `valueOf`, `__proto__`, ...) gets a tween that drives the particles to black | only sections whose id is one of the nine table keys get a tween | not executed; follows from JavaScript property lookup; latent, as the page's section ids are not part of this model | `ParticleColors.TweensAsWritten`, shown by `ParticleColors.InheritedNameGetsTween` | `ParticleColors.Tweens` |

## Left out

- The 3D scene, camera, renderer and canvas set-up (js/main.js:4-11, 25-34): calls into a graphics library.
- The random particle positions (js/main.js:14-23): random floating-point data.
- The frame loop and its clock-driven rotation (js/main.js:37-46): an endless loop over floating-point angles.
- The resize handler (js/main.js:49-53): a floating-point aspect ratio and library calls.
- Every animation-library entrance, timeline, stagger, easing, reveal-on-scroll and scrub (js/main.js:59-60, 70-96, 102-114, 155-166): their behaviour lives in a library that is not part of this model; the colour step stops at the tween targets.
- The division of the channels by 255 and the `Math.round` of the counters (js/main.js:91-94, 162-164): floating point.
- The year display (js/main.js:135): it reads the clock.
- A missing subtitle element: the guard `if (subtitle)` on line 64 comes after `subtitle.textContent` is read on line 63, so it protects nothing; the model assumes the element exists.
- A section without an `id` attribute (`getAttribute` returns `null`): every section is given a string id.
- A navigation icon without an `href` attribute, on which `substring` would throw: every icon is given a string `href`.
- ScrollSpy.Reached: compares in exact rational arithmetic; the source compares double-precision numbers, which differ only when the offset falls between the exact and the rounded value of `offsetTop - clientHeight / 3`.
- ParticleColors.ToInt32: defined on integers only; the table's values are integer literals, and a non-number value appears only in the as-written lookup, where it is given its result 0 directly.
- ScrollSpy.Fragment: drops one Dafny character (a Unicode scalar value); `substring(1)` drops one UTF-16 code unit, so the two differ when an `href` starts with a character outside the Basic Multilingual Plane (for `#id` links they agree).
- Subtitle.WrapChars: splits the text into Dafny characters (Unicode scalar values); `split('')` splits into UTF-16 code units, so a character outside the Basic Multilingual Plane becomes two spans in the source.
- How the browser parses the assigned `innerHTML` (for example that `&nbsp;` becomes U+00A0, not a space): the decoders model reading the markup text back, not the HTML parser.
