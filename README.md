# PTB runner: environment expansion and command assembly

`scripts/run_ptb.py` runs a PTB script through `sui client ptb`. It reads the
script and splits it into tokens with `shlex`. It expands `$NAME` and
`${NAME}` references in each token from the process environment. It stops
with status 1 if a variable is unset or if the script has no tokens.
Otherwise it runs `sui client ptb`, then the pass-through arguments, then the
expanded tokens, and returns the tool's return code.

This project models the pure core of that script in one Dafny module,
`RunPtb` (`run_ptb.dfy`):

- **The pattern** `\$(\w+)|\$\{([^}]+)\}`. `IsMatch` states declaratively
  when the pattern matches at the start of a string and what the match is.
  `MatchAt` computes the match. Its contract says the result is exactly the
  declarative match, or that there is none, and `MatchIsUnique` shows that
  the match is unique.
- **`expand_env`**. `Scan` splits a token, left to right, into matches and
  literal characters, as `re.sub` does. `Substitute` is the replacement
  callback applied to each match in turn. It aborts on the first unset name
  and otherwise inserts the value as it is. `Expand` is the two composed.
  The environment is a `map<string, string>` parameter, and the abort is the
  result `MissingVariable(name)`.
- **`main`**. `ExpandTokens` is the list comprehension over the tokens.
  `Plan` is the emptiness check and the assembly of the command. `MainStatus`
  is the script's exit status, given the tool's return code as a parameter.

## Model

| member | source | states |
|---|---|---|
| `RunPtb.IsWordChar` | scripts/run_ptb.py:38 | `\w`, restricted to ASCII letters, digits and `_`. It has no contract of its own; `WordRun` and `IsMatch` use it. |
| `RunPtb.IsMatch` | scripts/run_ptb.py:38 | `ENV_VAR_PATTERN` as a declarative predicate: `$` and a maximal run of word characters, or `${`, a non-empty name without `}`, and `}`. It has no contract of its own; `MatchAt`, `MatchIsUnique`, `ScanMatch`, `ScanNoMatch` and `DollarWithoutMatch` state the pattern's behaviour against it. |
| `RunPtb.WordRun` | scripts/run_ptb.py:38 | `\w+` is greedy: the result is the length of the longest prefix made only of word characters. Every character before it is a word character, and the next one, if any, is not. |
| `RunPtb.CloseBrace` | scripts/run_ptb.py:38 | `[^}]+\}` ends at the first `}`: the result is the index of a `}` with no `}` before it, or there is no `}` at all. |
| `RunPtb.MatchAt` | scripts/run_ptb.py:38 | Tries the bare alternative first, then the braced one. A result is a match of the pattern at the start of the string. No result means that no segment matches there. |
| `RunPtb.MatchIsUnique` | scripts/run_ptb.py:38 | The two alternatives cannot both match at one position, and each has at most one match, so the match at a position is determined. |
| `RunPtb.Scan` | scripts/run_ptb.py:49 | Splitting a token into matches and literal characters loses and adds nothing: the texts of the segments concatenate back to the token. |
| `RunPtb.ScanMatch` | scripts/run_ptb.py:38-49 | Where the pattern matches, that whole match is the next segment, and scanning resumes after it. |
| `RunPtb.ScanNoMatch` | scripts/run_ptb.py:38-49 | Where the pattern does not match, one character is copied through literally, and scanning resumes at the next character. |
| `RunPtb.DollarWithoutMatch` | scripts/run_ptb.py:38 | A trailing `$`, a `$` followed by neither a word character nor `{`, a `${}`, and an unclosed `${` are not matches. |
| `RunPtb.Substitute` | scripts/run_ptb.py:42-47 | The `replace` callback as `re.sub` applies it to each match in turn. It has no contract of its own; `SubstituteOkIff`, `SubstituteRenders`, `SubstituteMissingIsFirst` and `SubstituteLocal` state its behaviour. |
| `RunPtb.SubstituteOkIff` | scripts/run_ptb.py:42-47 | The callback pass succeeds if and only if every referenced name is in the environment. |
| `RunPtb.SubstituteMissingIsFirst` | scripts/run_ptb.py:42-47 | The callback pass aborts with name `n` if and only if `n` is the first referenced name, in left-to-right order, that is missing from the environment. |
| `RunPtb.SubstituteRenders` | scripts/run_ptb.py:42-49 | When every referenced name is set, the result is the concatenation, in order, of each literal character and each referenced variable's value as it is. |
| `RunPtb.SubstituteLocal` | scripts/run_ptb.py:42-47 | The callback pass depends on the environment only at the referenced names. |
| `RunPtb.FirstMissingCons` | scripts/run_ptb.py:44-46 | The first missing name of a list is its head if the head is missing, and otherwise the first missing name of its tail. |
| `RunPtb.Expand` | scripts/run_ptb.py:41-49 | `expand_env`. It succeeds exactly when every name written in the token is set. The result then replaces each reference by its variable's value as it is and keeps every other character. Otherwise it aborts naming the first unset name in scan order. |
| `RunPtb.ExpandWithoutDollar` | scripts/run_ptb.py:41-49 | A token without `$` is returned unchanged. |
| `RunPtb.ExpandBare` | scripts/run_ptb.py:38-49 | `$NAME` followed by a non-word character or the end is looked up by the whole word run. If NAME is set, its value is put in front of the expansion of the rest. If NAME is unset, the expansion aborts naming it. |
| `RunPtb.ExpandBraced` | scripts/run_ptb.py:38-49 | `${NAME}` with a non-empty NAME free of `}` is replaced by the value in front of the expansion of the rest. If NAME is unset, the expansion aborts naming it. |
| `RunPtb.ExpandLiteralDollar` | scripts/run_ptb.py:38-49 | A `$` that starts no match is kept literally, in front of the expansion of the rest. |
| `RunPtb.ExpandLiteralChar` | scripts/run_ptb.py:38-49 | A character other than `$` is kept literally, in front of the expansion of the rest. With `ExpandBare`, `ExpandBraced` and `ExpandLiteralDollar`, this determines the expansion of every token. |
| `RunPtb.ExpandMissingIsFirst` | scripts/run_ptb.py:44-46 | Expansion aborts with name `n` if and only if `n` is the first unset name referenced in the token, in scan order. |
| `RunPtb.ExpandLooksUpOnlyTokenNames` | scripts/run_ptb.py:47-49 | Substitution is not recursive: two environments that agree on the names written in the token give the same expansion, so names that occur only inside values are never looked up. |
| `RunPtb.ExpandLoneReference` | scripts/run_ptb.py:47-49 | A token that is a single bare reference `$NAME` to a set variable becomes exactly that variable's value, whatever the value contains. |
| `RunPtb.ExpandLoneBracedReference` | scripts/run_ptb.py:47-49 | A token that is a single braced reference `${NAME}` to a set variable becomes exactly that variable's value, whatever the value contains. |
| `RunPtb.FooDashExample` | scripts/run_ptb.py:38-49 | `$FOO-x` looks up `FOO` and keeps `-x` literally. |
| `RunPtb.ValueIsNotRescanned` | scripts/run_ptb.py:49 | With `A` set to `$B` and `B` unset, `$A` expands to `$B` and does not abort. |
| `RunPtb.ExpandTokens` | scripts/run_ptb.py:55 | The token list expands if and only if every token expands. The output has the same length, and output `i` is the expansion of input `i`. On a failure, the name reported is that of the first failing token, and every token before it expands. |
| `RunPtb.Plan` | scripts/run_ptb.py:55-61 | The run stops with the empty-script abort, and no command, exactly when the token list is empty. The tool runs if and only if the list is non-empty and every token expands. Its command is `sui client ptb`, then the pass-through arguments unchanged, then the expanded tokens in order, with length `3 + |extra| + |tokens|`. A non-empty list with an unset variable therefore stops the run as an unset variable, naming the first failing token's variable. |
| `RunPtb.MainStatus` | scripts/run_ptb.py:44-68 | The script's exit status is 1 when the run stops before the tool, and the tool's return code when the tool runs. It is 0 exactly when the tool runs and returns 0. |
| `RunPtb.MoveExample` | scripts/run_ptb.py:55-61 | A script such as `move $SRC $DST`, with both variables set, gives `sui client ptb`, then the pass-through arguments, then the verb and the two values verbatim. |

## Left out

- `parse_args` (scripts/run_ptb.py:21-35): command-line parsing by `argparse`. The pass-through arguments are an input to `Plan`.
- `read_text` (scripts/run_ptb.py:54): file I/O.
- `shlex.split(..., comments=True)` (scripts/run_ptb.py:55): this library tokenizer is not part of this model. Its output, the token list, is an input.
- The messages printed to standard error and the `shlex.join` echo of the command (scripts/run_ptb.py:45, 58, 62): output formatting only. An abort keeps the name it would print.
- `subprocess.run` (scripts/run_ptb.py:64-68): process launching is not modelled. The tool's return code is a parameter of `MainStatus`. A tool that cannot be started raises an exception that `main` does not catch. The interpreter's handling of that exception is not modelled.
- The conversion of `main`'s return value to a process exit status by the operating system, which truncates it to 8 bits. `MainStatus` is the untruncated value.
- `MainStatus`: for an unset variable, the script exits through the `SystemExit(1)` exception raised inside the list comprehension (scripts/run_ptb.py:46, 55), so `main` returns no value. The model gives that case the same status, 1, as a value, and does not model the exception's propagation.
- `os.environ` as live process state: it is an immutable map parameter.
- `IsWordChar`: `\w` is restricted to ASCII letters, digits and `_`. Python's `\w` on `str` patterns also matches other Unicode letters and digits.

## Notes on the code

- Expansion runs over all tokens before the emptiness check
  (scripts/run_ptb.py:55-57). Since an empty list has nothing to expand, the
  order does not change the outcome, and `Plan` keeps the code's order.
