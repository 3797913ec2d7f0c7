# doxyqml core in Dafny

doxyqml is an input filter for Doxygen. It reads a QML file and emits a
pseudo-C++ rendering of it that Doxygen can document. This project models
three parts of it and proves properties of them:

* **The QML lexer** (`doxyqml/lexer.py`), modelled as the class `Lexer.Lexer`.
  * It keeps the source's cursor state: the text, `idx`, `column`,
    `newline` and the token list.
  * `advance`, `apply_tokenizers`, `set_position`, `append_token`,
    `tokenize` and the three token fixups are methods that change this state.
  * The methods are proved against functions:
    * `Lexer.Lex`, the token list the cursor loop produces;
    * `Rules.FirstMatch`, the first-match-wins search through the two rule
      tables;
    * `Fixups.FixupFrom`, what the fixup pass makes of the token list.
  * Each regular expression of the lexer is a hand-written matcher in the
    module `Rules`. It returns the span of capture group 1, or of the whole
    match when the expression has no group.
* **The class model and its pseudo-C++ renderer** (`doxyqml/qmlclass.py`).
  * Arguments, attributes, properties, functions and signals are
    datatypes, each with its rendering function.
  * `QmlClass` is a class whose `add_*` methods append to its fields.
  * Its `__str__` is the method `QmlModel.QmlClass.ToString`. It is proved
    against the function `QmlModel.RenderClass`, which renders a component
    and its nested components.
  * The doc-comment annotations are in the module `QmlDoc`:
    * `post_process_type` and the `type:` search patterns;
    * the `@param type:T name` substitution of
      `QmlFunction.post_process_doc`.
* **The error-position helpers** of `doxyqml/main.py`: `coord_for_idx`,
  `line_for_idx` and `info_for_error_at` (module `ErrorInfo`).

Modules:

* `Text`: Python's string operations as the source uses them (`find`,
  `rfind`, `split`, `join`, `replace`, `strip`, `lower`, `count`) and the
  column of an offset.
* `Tokens`: the token types, the token record and `is_doxy_comment_token`.
* `Rules`: the lexer's rule tables.
* `Fixups`: the fixup pass as functions on token lists.
* `Lexer`: the lexer class.
* `QmlDoc`: doc-comment post-processing.
* `QmlModel`: the members, the rendering and the `QmlClass` builder.
* `ErrorInfo`: the main.py helpers.

The lexer properties proved are:

* `advance` stops at the first non-whitespace character, and `newline`
  says whether a line start was crossed.
* The column is always the column of the cursor.
* Line-start rules are tried first, and only at a line start. The first
  matching rule wins.
* Every match is non-empty and starts at the cursor. Hence `tokenize`
  terminates, and its tokens are well placed and in text order.
* "No lexer matched" cannot happen.
* The fixups keep every token offset. Hoisting an inline comment is a
  rotation, so it is a permutation.
* The hoist decision is characterised exactly: when the comment moves,
  when it stays, and when the source fails on an unbound variable.

For the class model, the properties proved are:

* Each renderer's output has the shape the source produces.
* `post_process_type` can be undone, and it changes the text exactly when
  an annotation is present.
* The `@param` substitution invents no types, and it warns only about names
  that belong to no argument.
* The top-level and nested layouts of `__str__` are as follows:
  * namespace wrapping when the name is dotted;
  * a class block only for nested components that have an `id`;
  * nested components rendered after the block.
* Rendering changes nothing but docs and types.

Behaviours of the source worth knowing, modelled as written:

* **De-indenting is not idempotent.** `left_shift_comment` keeps the
  token's column, so applying it twice removes the indentation twice.
  `Fixups.LeftShifted` models this as written.
* **The error line is not the whole line.** `line_for_idx` keeps the
  newline before the line. It also drops the text's last character when
  no newline follows the offset, because `find` returns -1 there and is
  used as a slice end. `ErrorInfo.LineForIdxIsLine` states both effects.
* **`function` matches before a parenthesis.** `(function)\s+[^(]`
  backtracks: "function" followed by two spaces and `(` matches, and the
  second space serves as `[^(]`. See `Rules.FunctionTailBacktracks`.

## Model

| member | source | states |
|---|---|---|
| Text.SpanWhile | doxyqml/lexer.py:99-108 | the end of the longest run of characters with the property, starting at the offset: every character before it has the property and the one at it does not |
| Text.SpanWhileIsLongestRun | doxyqml/lexer.py:99-108 | any run that stops at a character without the property is the run SpanWhile finds |
| Text.ColumnFromLastNewline | doxyqml/lexer.py:198-204 | the column of an offset is the offset minus the last newline before it minus one, or the offset itself when there is none |
| Text.CountChar | doxyqml/main.py:20 | `count(c)`: at most one per character, and zero exactly when the character is absent |
| Text.ColumnIsLineOffset | doxyqml/lexer.py:198-204 | the column counts back to the line start: the characters it covers hold no newline and the one before them is a newline |
| Text.RFind | doxyqml/main.py:28 | `rfind`: -1 exactly when the character is absent from the range, otherwise its last occurrence in the range |
| Text.Find | doxyqml/main.py:31 | `find`: -1 exactly when the character is absent from the offset on, otherwise its first occurrence |
| Text.Split | doxyqml/qmlclass.py:65 | `split(c)` gives one more piece than there are occurrences of `c`, and no piece contains `c` |
| Text.JoinSplit | doxyqml/qmlclass.py:65 | joining the pieces of a split with the separator gives back the string |
| Text.SplitJoin | doxyqml/qmlclass.py:65 | splitting a join of pieces free of the separator gives back the pieces |
| Text.ReplaceIsSplitJoin | doxyqml/qmlclass.py:70-72 | `m.replace('.', '::')` equals `'::'.join(m.split('.'))`, so the `using namespace` lines and the namespace line write dots the same way |
| Text.Words | doxyqml/qmlclass.py:52 | `split()` gives non-empty words without whitespace, and no word at all exactly when the text is only whitespace |
| Text.WordsLeadingSpace | doxyqml/qmlclass.py:52 | leading whitespace does not change the words |
| Text.WordsCons | doxyqml/qmlclass.py:52 | a word followed by whitespace is the first word, and the rest is split the same way |
| Text.WordsJoin | doxyqml/qmlclass.py:52 | joining non-empty words free of whitespace with spaces and splitting again gives the words back |
| Text.StripSpace | doxyqml/qmlclass.py:59 | `strip()` gives the slice left after cutting whitespace at both ends: empty or starting and ending with non-whitespace, with only whitespace cut away |
| Text.Lower | doxyqml/qmlclass.py:61 | `lower()` lowers each character in place and keeps the length |
| Text.Repeat | doxyqml/main.py:38 | `"-" * n` has length `n` and consists only of the character |
| Tokens.DoxyCommentMarkers | doxyqml/lexer.py:23-27 | only COMMENT tokens can be doc comments; for a comment opening with two slashes or slash-star, it is a doc comment exactly when its third character is '/', '!' or '*' or it has none |
| Rules.MatchInlineComponent | doxyqml/lexer.py:52 | matches exactly when "component " is followed by a name character; the value is the longest name after it |
| Rules.MatchNameBefore | doxyqml/lexer.py:53-54 | matches exactly when a name, optional whitespace and the closer follow; the value is the name |
| Rules.NameThenCloserUnique | doxyqml/lexer.py:53-54 | the greedy split into name and whitespace is the only one that can match |
| Rules.FindClose | doxyqml/lexer.py:58-60 | the lazy `.*?\*/`: the first "*/" at or after the offset, and none exists when it finds nothing |
| Rules.MatchBlockComment | doxyqml/lexer.py:58-60 | matches exactly when the (inline) opener is at the cursor and a "*/" follows it; the match ends at the first such "*/" |
| Rules.RunEnd | doxyqml/lexer.py:59-61 | the repetition of comment lines ends at a line end that no further comment line continues, and every newline it passes is continued |
| Rules.MatchLineComment | doxyqml/lexer.py:59-61 | matches exactly at a comment head; the run ends at a line end that is not continued, and every newline inside it is continued |
| Rules.StringEnd | doxyqml/lexer.py:66 | the body ends just after a matching quote that a well-formed body (no bare quote, escapes not taking a newline) reaches; if any closing quote is reachable, it is the one found |
| Rules.MatchString | doxyqml/lexer.py:66 | matches exactly when a quote opens and the same quote closes a well-formed body; the literal runs from the quote to that closing quote |
| Rules.MatchDelimiter | doxyqml/lexer.py:67-70 | matches the one character exactly when it is there, and for braces not next to a single quote |
| Rules.MatchDirective | doxyqml/lexer.py:71-72 | matches exactly at `import`/`pragma` plus whitespace (and, for pragma, a word character after it); the value is the keyword through the end of the line |
| Rules.DeclKeywordEnd | doxyqml/lexer.py:73 | the end of group 1: the group spells `property`, `signal`, `enum` or `default`/`readonly` + whitespace + `property`, and any end so spelled is the one found |
| Rules.MatchDeclKeyword | doxyqml/lexer.py:73 | matches exactly when one of those keywords is followed by whitespace; the value is the keyword |
| Rules.FunctionTailBacktracks | doxyqml/lexer.py:74 | `\s+[^(]` matches exactly when the whitespace run is non-empty and is followed by something other than '(' or is at least two long |
| Rules.MatchFunctionKeyword | doxyqml/lexer.py:74 | matches exactly when "function" is followed by `\s+[^(]`; the value is "function" |
| Rules.MatchElement | doxyqml/lexer.py:76 | matches exactly at a word character; the value is the longest `[\w.<>]` run after it |
| Rules.MatchAnyChar | doxyqml/lexer.py:77 | matches exactly at a character that is not a newline; the value is that character |
| Rules.MatchRule | doxyqml/lexer.py:51-78 | every rule's value is a non-empty span of the text at or after the cursor, so each token moves the cursor forward |
| Rules.FirstMatch | doxyqml/lexer.py:110-140 | a hit lies inside the text and is not empty |
| Rules.FirstMatchWins | doxyqml/lexer.py:112-140 | the search fails exactly when no rule matches; otherwise the winner matches and no earlier rule does |
| Rules.FirstMatchAppend | doxyqml/lexer.py:111-127 | the line-start table is searched before the general one, and the general one only if the first fails |
| Rules.FirstMatchIs | doxyqml/lexer.py:127-136 | the first rule of the loop that matches is the hit |
| Rules.NonSpaceAlwaysMatches | doxyqml/lexer.py:77 | at a non-whitespace character some rule matches, so "No lexer matched" cannot follow `advance` |
| Lexer.Collapse | doxyqml/lexer.py:79 | collapsing continuations keeps the newlines, and leaves the text as it is exactly when it has no backslash-newline |
| Lexer.CollapseAppend | doxyqml/lexer.py:79 | collapsing distributes over a concatenation that does not cut a backslash-newline pair |
| Lexer.CollapseJoin | doxyqml/lexer.py:79 | lines without continuations joined with backslash-newline collapse to the same lines joined with newline |
| Lexer.TokenFor | doxyqml/lexer.py:195-196 | the appended token has the rule's type, the cursor's offset and column, and the value's length |
| Lexer.Lex | doxyqml/lexer.py:85-90 | the token list from an offset is empty exactly when only whitespace is left |
| Lexer.LexTokensInOrder | doxyqml/lexer.py:85-90 | every token sits at a non-whitespace offset with that offset's column and a non-empty value, and the offsets strictly increase |
| Lexer.NextHit | doxyqml/lexer.py:110-140 | after skipping whitespace there is always a hit, and it lies after the skipped whitespace |
| Lexer.LexUnfold | doxyqml/lexer.py:86-90 | one round of the loop: the token at the first non-whitespace offset, then the rest |
| Lexer.Lexer.constructor | doxyqml/lexer.py:49-83 | the text has its continuations collapsed; the cursor, column and tokens start empty |
| Lexer.Lexer.Tokenize | doxyqml/lexer.py:85-91 | the loop ends with the cursor at the end; the result is the fixup pass applied to the lexed tokens |
| Lexer.Lexer.Round | doxyqml/lexer.py:86-90 | a round keeps the tokens so far plus the tokens still to come, and moves the cursor forward unless the text is used up |
| Lexer.Lexer.Advance | doxyqml/lexer.py:93-108 | the cursor stops at the first non-whitespace character or the end; `newline` holds exactly when a newline was skipped or the call started at 0; the column stays right |
| Lexer.Lexer.ApplyTokenizers | doxyqml/lexer.py:110-142 | appends the token of the first matching rule of the table for `newline`, moves the cursor to the value's end, and fails with no change when nothing matches |
| Lexer.Lexer.TryRules | doxyqml/lexer.py:127-140 | one table's loop: the first matching rule is applied, otherwise nothing changes |
| Lexer.Lexer.AppendToken | doxyqml/lexer.py:195-196 | appends a token at the cursor's offset and column |
| Lexer.Lexer.SetPosition | doxyqml/lexer.py:198-204 | moves the cursor and leaves the column equal to the cursor's column |
| Lexer.Lexer.FixupTokens | doxyqml/lexer.py:144-155 | the in-place loop gives the tokens and success of `FixupFrom`, the pass over the list as each iteration leaves it |
| Lexer.Lexer.FixupIteration | doxyqml/lexer.py:146-155 | one iteration leaves the tokens and success of `FixupAt`: reclassify the keyword, left-shift a comment, hoist an inline comment past index 1 |
| Lexer.Lexer.LeftShiftComment | doxyqml/lexer.py:157-168 | replaces the token at the index by its left-shifted form and changes nothing else |
| Lexer.Lexer.MoveInlineComments | doxyqml/lexer.py:170-193 | rotates the comment to the keyword on `HoistTo`, leaves the list on `Stay`, and fails with the list unchanged on `Unbound` |
| Fixups.AsElement | doxyqml/lexer.py:151 | the keyword "property" becomes an ELEMENT with the same value, offset and column |
| Fixups.Reclassify | doxyqml/lexer.py:148-151 | the list changes exactly when the keyword "property" follows an ELEMENT that follows a keyword ending in "property"; then only that token changes, into an ELEMENT with the same value, offset and column |
| Fixups.DedentByLines | doxyqml/lexer.py:166-167 | the multi-line `^[ \t]{n}` substitution removes `n` blanks from each line that has that many and leaves the other lines whole |
| Fixups.StripIndent | doxyqml/lexer.py:166-167 | the substitution removes only blanks: the text gets no longer and every other character, the newlines included, occurs as often as before |
| Fixups.Dedent | doxyqml/lexer.py:166-167 | the same for the whole text, which starts at a line start; `DedentByLines` relates it to the lines |
| Fixups.LeftShifted | doxyqml/lexer.py:157-168 | a column-0 token is kept; any other keeps its type, offset and column and has each line de-indented by the column |
| Fixups.NearestStop | doxyqml/lexer.py:179-186 | the highest index of the scanned range holding a keyword or a blocking token, with none above it, or nothing when there is none |
| Fixups.ScanFloor | doxyqml/lexer.py:178 | the search window reaches back at most 20 tokens, and exactly 20 unless it stops at index 0 |
| Fixups.HoistDecision | doxyqml/lexer.py:170-193 | a move goes to an index inside the scanned window |
| Fixups.HoistDecisionMeaning | doxyqml/lexer.py:176-193 | combines the three cases below |
| Fixups.HoistToMeaning | doxyqml/lexer.py:179-193 | the comment moves only to the nearest keyword, never to index 0, with nothing blocking between them and no documentation before the keyword |
| Fixups.UnboundMeaning | doxyqml/lexer.py:179-189 | the source fails (unbound `ins_idx`) exactly when no token in the window stops the scan |
| Fixups.StayMeaning | doxyqml/lexer.py:185-191 | the list stays exactly when the nearest stop is a comment, import or pragma, or when the keyword is already documented by an inline or doxy comment |
| Fixups.Rotate | doxyqml/lexer.py:193 | `insert(at, pop(start))`: the comment moves to `at`, the tokens between shift right by one, and all others stay |
| Fixups.RotateIsPermutation | doxyqml/lexer.py:193 | the move neither loses nor duplicates a token |
| Fixups.FixupAt | doxyqml/lexer.py:148-155 | one iteration keeps the length of the list |
| Fixups.FixupFrom | doxyqml/lexer.py:145-155 | the pass keeps the length of the list |
| Fixups.OffsetsRotate | doxyqml/lexer.py:193 | moving a token moves its offset the same way |
| Fixups.FixupAtKeepsOffsets | doxyqml/lexer.py:148-155 | one iteration keeps the multiset of token offsets |
| Fixups.FixupKeepsOffsets | doxyqml/lexer.py:144-193 | the whole pass keeps the multiset of token offsets, whether it completes or fails |
| QmlDoc.TypeSuffixAt | doxyqml/qmlclass.py:4 | `\s+type:[\w.<>\|]+` at an offset: whitespace, "type:", then the longest non-empty run of type characters; it matches exactly when some whitespace-"type:"-type shape starts there, and the type found is the longest |
| QmlDoc.PatternAt | doxyqml/qmlclass.py:151-184 | either pattern at an offset: matches exactly when some shape of it (for `[@\\]returns?`, with or without the `s`) starts there, and the type found is the longest |
| QmlDoc.ReturnTypeAt | doxyqml/qmlclass.py:184 | `[@\\]returns?` followed by the type pattern at an offset: matches exactly when the command, with or without the `s`, is followed by a whitespace-"type:"-type shape, and the type found is the longest |
| QmlDoc.PatternAtSpans | doxyqml/qmlclass.py:4 | in a match, whitespace runs up to "type:" and the type consists of type characters |
| QmlDoc.Search | doxyqml/qmlclass.py:7 | `search`: a result is a match at its own offset, at or after the start |
| QmlDoc.SearchNoneIffNoMatch | doxyqml/qmlclass.py:7-8 | the search finds nothing exactly when no offset matches |
| QmlDoc.SearchFindsLeftmost | doxyqml/qmlclass.py:7 | the match found is the leftmost one |
| QmlDoc.PostProcessType | doxyqml/qmlclass.py:6-11 | with no match, text and type are returned unchanged; with one, the text gets shorter |
| QmlDoc.PostProcessTypeRestores | doxyqml/qmlclass.py:9-10 | the original text is the result with the cut `<whitespace>type:<new type>` put back where it was |
| QmlDoc.PostProcessTypeFindsType | doxyqml/qmlclass.py:9 | the new type is a non-empty run of type characters, and the removed prefix is whitespace |
| QmlDoc.PostProcessTypeChangesIffAnnotated | doxyqml/qmlclass.py:6-11 | the text is unchanged exactly when it has no annotation |
| QmlDoc.ParamAt | doxyqml/qmlclass.py:183 | `doc_arg_rx` at an offset: the type and the name spans, in order; the name consists of word characters |
| QmlDoc.ParamAtMatches | doxyqml/qmlclass.py:183 | a match is `[@\\]param`, whitespace, "type:", a type, whitespace and the longest name |
| QmlDoc.ParamAtComplete | doxyqml/qmlclass.py:183 | whenever `doc_arg_rx` can spell a match at an offset, `ParamAt` finds it there, with the same type and name start and a name at least as long |
| QmlDoc.ParamsDoNotOverlap | doxyqml/qmlclass.py:216 | no annotation starts inside another, so skipping to the end of a match loses none |
| QmlDoc.FirstArgNamed | doxyqml/qmlclass.py:208-211 | the first argument with the name, or nothing exactly when no argument has it |
| QmlDoc.AssignArgType | doxyqml/qmlclass.py:208-213 | only the first argument with the name gets the type; `found` holds exactly when some argument has the name |
| QmlDoc.SubStep | doxyqml/qmlclass.py:204-216 | one step of `re.sub` moves forward and keeps the arguments' number and names; `StepTypeAt` gives the type it assigns |
| QmlDoc.SubParams | doxyqml/qmlclass.py:216 | the substitution keeps the arguments' number and names; `SubParamsMeaning` characterises its result |
| QmlDoc.SubParamsWithoutAnnotation | doxyqml/qmlclass.py:216 | a doc with no typed `@param` is copied unchanged and changes no argument |
| QmlDoc.SubParamsTypesFromDoc | doxyqml/qmlclass.py:204-216 | each argument keeps its type or gets the type that some `@param` annotation gives to its name |
| QmlDoc.SubParamsUnknownAreNotArgs | doxyqml/qmlclass.py:208-213 | every name that is warned about belongs to no argument |
| QmlDoc.UnknownNames | doxyqml/qmlclass.py:208-216 | the names of the annotations that name no argument, offset by offset; none of them is an argument's |
| QmlDoc.SubParamsMeaning | doxyqml/qmlclass.py:203-216 | the text of `re.sub` is the doc with each annotation replaced by `@param name`, defined offset by offset; each argument's type is that of the last annotation naming it first, or its own; the warnings are exactly `UnknownNames` |
| QmlDoc.SubParamsLastAnnotationWins | doxyqml/qmlclass.py:208-213 | the last annotation that names an argument first decides its type; an argument no annotation names keeps its own |
| QmlDoc.StepTypeAt | doxyqml/qmlclass.py:208-213 | one step gives the argument the annotation's type exactly when the annotation names it first among the arguments |
| QmlModel.ArgumentText | doxyqml/qmlclass.py:125-129 | the bare name exactly when the type is empty; it always ends with the name |
| QmlModel.ArgumentTextRoundTrip | doxyqml/qmlclass.py:125-129 | an argument whose name has no space is read back from its text |
| QmlModel.ArgTexts | doxyqml/qmlclass.py:194 | one text per argument, in order |
| QmlModel.ArgListPieces | doxyqml/qmlclass.py:194 | arguments free of commas are separated by exactly one comma each, so the list splits back into one piece per argument |
| QmlModel.AttributeText | doxyqml/qmlclass.py:139-147 | empty exactly for `id`; otherwise it ends with `type name;` |
| QmlModel.AttributeTextRoundTrip | doxyqml/qmlclass.py:139-145 | the doc and the declaration are read back from the text: the declaration is the last line and the doc is what comes above it |
| QmlModel.Placed | doxyqml/qmlclass.py:166-176 | an inline doc follows the declaration after a space; any other doc stands on the line above it |
| QmlModel.PropertyRemark | doxyqml/qmlclass.py:169-172 | the default remark takes precedence over the read-only one, and there is no remark when neither applies |
| QmlModel.RenderProperty | doxyqml/qmlclass.py:164-179 | rendering changes only the property's doc and type |
| QmlModel.RenderPropertyUnannotated | doxyqml/qmlclass.py:164-179 | without an annotation the property is unchanged and its text is the placed declaration with the remark |
| QmlModel.RenderPropertyAnnotated | doxyqml/qmlclass.py:178-179 | the new type is the leftmost annotation's type, and the old doc is the new one with the annotation put back |
| QmlModel.RenderPropertyTwice | doxyqml/qmlclass.py:164-179 | rendering again gives the same result unless the doc holds a second annotation |
| QmlModel.RenderFunction | doxyqml/qmlclass.py:192-217 | rendering keeps the function's name, placement and its arguments' number and names; `RenderFunctionTypes` gives its types, doc and warnings |
| QmlModel.RenderFunctionTypes | doxyqml/qmlclass.py:203-217 | each argument takes the type of the last `@param` line that names it first among the arguments, or keeps its own; the warnings are exactly the names of the lines that name no argument, in order; the doc is the original with each typed `@param` line replaced by `@param name`, then its leftmost typed `@return` cut out and made the return type (kept when there is none) |
| QmlModel.RenderFunctionLastAnnotationWins | doxyqml/qmlclass.py:208-213 | in the rendered function, the last `@param` line naming an argument decides its type, and an argument no line names keeps its own |
| QmlModel.RenderFunctionUnannotated | doxyqml/qmlclass.py:192-217 | with no annotation, nothing changes, nothing is reported, and the text is the placed declaration |
| QmlModel.SignalText | doxyqml/qmlclass.py:227-240 | always ends with `public:`; the doc comes first unless it is inline |
| QmlModel.FiltersKeepMembers | doxyqml/qmlclass.py:30-40 | each `get_*` keeps exactly the elements of its kind |
| QmlModel.AttributesAppend | doxyqml/qmlclass.py:30-31 | `get_attributes` keeps the order: filtering a concatenation concatenates the filtered parts |
| QmlModel.PropertiesAppend | doxyqml/qmlclass.py:33-34 | `get_properties` keeps the order |
| QmlModel.FunctionsAppend | doxyqml/qmlclass.py:36-37 | `get_functions` keeps the order |
| QmlModel.SignalsAppend | doxyqml/qmlclass.py:39-40 | `get_signals` keeps the order |
| QmlModel.FirstIdMeaning | doxyqml/qmlclass.py:81-87 | there is no id exactly when no attribute is named `id`; otherwise the id is the value of the first such attribute |
| QmlModel.FirstIdAt | doxyqml/qmlclass.py:81-87 | the first attribute named `id` gives the id |
| QmlModel.RenderElement | doxyqml/qmlclass.py:100-111 | rendering never turns a component into a member or a member into a component |
| QmlModel.RenderAll | doxyqml/qmlclass.py:100-111 | one rendering per element |
| QmlModel.PassWith | doxyqml/qmlclass.py:99-111 | a pass keeps the number of elements |
| QmlModel.PassWithPrefix | doxyqml/qmlclass.py:102-104 | one loop iteration extends the pass by what its element contributes |
| QmlModel.RenderPass | doxyqml/qmlclass.py:99-111 | a pass keeps the number of elements |
| QmlModel.PassWithElements | doxyqml/qmlclass.py:99-111 | a pass replaces exactly the selected elements by their rendered forms |
| QmlModel.RenderPassElements | doxyqml/qmlclass.py:99-111 | each element after a pass is its rendered form if the pass renders it, and the element itself otherwise |
| QmlModel.RenderPassAnyNothing | doxyqml/qmlclass.py:99-100 | selecting everything renders every element into the block; selecting nothing changes nothing |
| QmlModel.TwoPasses | doxyqml/qmlclass.py:101-111 | the members loop followed by the nested-components loop equals one pass that renders members into the block and nested components after it |
| QmlModel.UsingLines | doxyqml/qmlclass.py:69-70 | one `using namespace` line per import, in order |
| QmlModel.UsingLine | doxyqml/qmlclass.py:69-70 | `using namespace` and the import's dotted segments joined with `::` |
| QmlModel.ClassDecl | doxyqml/qmlclass.py:92-96 | the line is the plain `class Name {` exactly when there is no base name to derive from |
| QmlModel.Block | doxyqml/qmlclass.py:92-106 | the block opens with the class declaration line, closes with `};`, and has three lines more than the rendered elements |
| QmlModel.ClassWith | doxyqml/qmlclass.py:64-117 | rendering a component changes only its elements, and keeps their number |
| QmlModel.RenderClass | doxyqml/qmlclass.py:64-117 | rendering a component changes only its elements, and keeps their number |
| QmlModel.RenderClassLines | doxyqml/qmlclass.py:64-117 | the rendered component and its lines in terms of the name, the id, `show_object` and the pass |
| QmlModel.SegmentsOfName | doxyqml/qmlclass.py:65-72 | a name splits into more than one segment exactly when it has a dot; the last segment follows the last dot; the other segments joined with `::` are the part before the last dot with its dots replaced |
| QmlModel.TopLevelLayout | doxyqml/qmlclass.py:65-117 | top level: the using lines, the namespace iff the name is dotted, the header comments, the class block with every element, the footer comments, and `}` iff the name is dotted |
| QmlModel.TopLevelRendersAll | doxyqml/qmlclass.py:99-100 | the top level renders each element once, inside its block, and keeps each as its rendering left it |
| QmlModel.NestedWithoutId | doxyqml/qmlclass.py:78-111 | a nested component without an id has no block, only the header comments, its nested components and the footer comments; its members are neither rendered nor changed |
| QmlModel.NestedWithId | doxyqml/qmlclass.py:78-111 | a nested component with an id: the comment if any, `Name id;` for the first id, the block of its members, then its nested components |
| QmlModel.ChildrenAlwaysAfter | doxyqml/qmlclass.py:108-111 | nested components are rendered after the block the same way, whether or not the component is shown |
| QmlModel.RenderElementBare | doxyqml/qmlclass.py:164-217 | rendering an element changes nothing but docs and types |
| QmlModel.RenderPassBare | doxyqml/qmlclass.py:99-111 | a pass changes nothing but docs and types |
| QmlModel.RenderClassBare | doxyqml/qmlclass.py:64-117 | rendering a component changes nothing but the docs and types of its members, at any depth |
| QmlModel.BareKeepsAttributesAndSignals | doxyqml/qmlclass.py:30-40 | `get_attributes` and `get_signals` give the same results before and after rendering |
| QmlModel.QmlClass.constructor | doxyqml/qmlclass.py:17-27 | a top-level component with nothing in it; a non-empty version becomes the `@since` header comment |
| QmlModel.QmlClass.AddElement | doxyqml/qmlclass.py:42-43 | appends the element and changes nothing else |
| QmlModel.QmlClass.AddHeaderComment | doxyqml/qmlclass.py:45-46 | appends the header comment and changes nothing else |
| QmlModel.QmlClass.AddFooterComment | doxyqml/qmlclass.py:48-49 | appends the footer comment and changes nothing else |
| QmlModel.QmlClass.AddImport | doxyqml/qmlclass.py:51-56 | fails exactly when the declaration has fewer than two words; appends the second word unless it starts with a quote |
| QmlModel.QmlClass.AddPragma | doxyqml/qmlclass.py:58-62 | fails exactly when the declaration has no space; appends the singleton remark exactly when the argument is "singleton" in any case |
| QmlModel.IsSingleton | doxyqml/qmlclass.py:59-61 | holds exactly when the stripped argument spells "singleton" letter by letter, ignoring case |
| QmlModel.SpaceSplits | doxyqml/qmlclass.py:59 | `split(' ')` gives at least two pieces exactly when there is a space |
| QmlModel.QmlClass.ToString | doxyqml/qmlclass.py:64-117 | the text is `RenderClass`'s lines joined with newlines, and the elements are left as the rendering left them |
| QmlModel.QmlClass.RenderBody | doxyqml/qmlclass.py:91-111 | the block (if shown) and the lines after it, as one pass gives them, and the elements after both loops |
| QmlModel.QmlClass.OpeningLines | doxyqml/qmlclass.py:67-72 | the using lines and the namespace line of a top-level component, and nothing for a nested one |
| QmlModel.QmlClass.IdLinesFor | doxyqml/qmlclass.py:78-87 | the comment and `Name id;` of the first id, and `show_object` holds exactly at top level or when there is an id |
| QmlModel.QmlClass.RenderElements | doxyqml/qmlclass.py:99-111 | one rendering loop: the texts and elements of a pass with the selection |
| ErrorInfo.CoordForIdx | doxyqml/main.py:17-24 | the row is 1 plus the newlines before the offset; the column is 1 plus the characters after the last of them; an offset past the end counts as the end, as slicing does |
| ErrorInfo.LineForIdx | doxyqml/main.py:27-32 | the snippet is no longer than the text |
| ErrorInfo.LineForIdxIsLine | doxyqml/main.py:27-32 | the snippet is the offset's line with the newline before it; when no newline follows, the text's last character is lost |
| ErrorInfo.LastNewlineIsLineStart | doxyqml/main.py:28-30 | `rfind` gives one before the start of the offset's line |
| ErrorInfo.FirstNewlineIsLineEnd | doxyqml/main.py:31 | `find` gives the end of the offset's line, or -1 on the last line |
| ErrorInfo.CaretLine | doxyqml/main.py:38 | `col - 1` dashes and then a caret |
| ErrorInfo.InfoForErrorAt | doxyqml/main.py:35-39 | the row of `coord_for_idx`; the message is the line, a newline and the caret under the offset's column |
| ErrorInfo.AtStart | doxyqml/main.py:17-24 | at offset 0 the coordinates are (1, 1) and the caret line is a bare caret |

## Left out

- The QML parser (`doxyqml/qmlparser.py`) is not part of this model. The model builds components only through the `QmlClass` methods.
- The file handling of `doxyqml/main.py` is left out because it is I/O: argument parsing, encoding detection, the qmldir lookup, output and the token dump.
- `main.py` reports lexer errors at an offset into the collapsed text but applies it to the original text. That end-to-end pairing is left out; the helpers are modelled on whatever text they are given.
- `main.py` calls `QmlClass` with four arguments, while `qmlclass.py` takes two. The model follows `qmlclass.py`.
- Regular expressions are hand-written matchers with ASCII `\w`. `\s` and `isspace()` cover the ASCII whitespace Python accepts. Unicode classes are not modelled.
- `logging.warning` for an unknown `@param` name becomes the list of unknown names that `RenderFunction` returns.
- `QmlClass.comment` is set only from outside and is never initialised. It is an `Option`, where `None` means there is no comment; a component read without one set, which raises in Python, is not modelled.
- Nested components are held by value inside their parent's elements. Aliasing, where a child is changed after it was appended, is not captured.
- The member classes' constructors (`QmlArgument`, `QmlAttribute`, ...) become datatype values with every field given. Their defaults (type "var" or "void") are the parser's choice.
- Lexer.Lexer.MoveInlineComments: when the scan finds neither a keyword nor a blocking token, Python reads the unbound `ins_idx` and raises. The model returns failure and leaves the list unchanged.
- Lexer.Lexer.Tokenize: on that failure the pass stops, as the exception does in the source. The model does not raise.
- The `ins_idx <= 0` return of `move_inline_comments` is not modelled because it cannot happen: the scan never reaches index 0, and `Fixups.HoistToMeaning` proves a move target is at least 1.
- `left_shift_comment`'s `pop` and `insert` at the same index are modelled as one replacement of that index; the resulting list is the same.
- `QmlModel.RenderAll` renders every element, including elements a pass leaves alone. Only the renderings of selected elements are used, and rendering has no effect outside its result.
