# RepoInsight input handling, in Dafny

RepoInsight is a Streamlit app. It takes a GitHub repository URL, loads the
repository's files, indexes them in a Deep Lake vector store and answers
questions about them through a LlamaIndex query engine. Almost all of its
work is done by those external services. This project models the part of
`app.py` that has logic of its own:

- the start-up credential check (`check_environment_variables`) and the
  GitHub token lookup (`initialize_github_client`). Both are in
  `environment.dfy`. The process environment is a `map<string, string>`.
  A name that is absent from the map, or mapped to `""`, counts as missing.
- the URL parser `parse_github_url`, the check `validate_owner_repo`, and the
  decision the script takes on a submitted URL. All three are in
  `github_url.dfy`. The regular expression `https://github\.com/([^/]+)/([^/]+)`,
  applied with `re.match`, is written directly over strings (`ParseGithubUrl`).
  The ghost predicates `MatchesWith`, `Matches` and `GreedyMatchWith` say
  independently what it means for the pattern to match. The lemmas prove that
  the parser agrees with them. Python's `None` is `Wrappers.None`, and the
  pair `(None, None)` is `ParseGithubUrl(url) == None` (see `Unpack`).
- the handling of the follow-up question: the `"exit"` sentinel, compared
  after lower-casing, versus a query sent verbatim. It is in `questions.dfy`,
  together with the list of questions the engine receives, the fixed test
  question coming first.

Every operation here is straight-line code in the source, with at most
nested conditionals. The exception is `check_environment_variables`, a loop
that stops early. So the operations are functions and lemmas, and the check
is a `method` with a `for` loop. That method is proved against the specification function
`MissingVariable`.

A failed parse returns `(None, None)` (app.py:21). `validate_owner_repo`
would reject two empty strings the same way.

## Model

| member | source | states |
|---|---|---|
| `GithubUrl.SlashFreeRun` | app.py:19 | the greedy `[^/]` run: its length is at most the input's, it holds no `/`, and the character after it, if there is one, is `/` |
| `GithubUrl.ParseGithubUrl` | app.py:18-21 | on success, owner and repo are both non-empty and contain no `/` |
| `GithubUrl.ParseSound` | app.py:18-21 | whatever the parser returns is a match of the pattern at the start of the URL, and it is the greedy one: the repo group cannot be extended |
| `GithubUrl.ParseComplete` | app.py:18-21 | whenever the pattern matches with some owner and repo, the parser succeeds with that owner and a repo name extending that repo |
| `GithubUrl.ParseSucceedsIff` | app.py:19-21 | the parser returns a pair exactly when `re.match` finds the pattern, and `(None, None)` otherwise |
| `GithubUrl.ParseBuilt` | app.py:18-21 | round trip: `"https://github.com/" + o + "/" + r + s` parses to `(o, r)` for non-empty slash-free `o`, `r` and a suffix `s` that is empty or starts with `/` (trailing path text is ignored) |
| `GithubUrl.ParseGreedy` | app.py:19-21 | the greedy match of the pattern is exactly what the parser returns |
| `GithubUrl.ParseStopsAtSlash` | app.py:19 | on success, the input character right after the repo name, if there is one, is `/` |
| `GithubUrl.ValidateOwnerRepo` | app.py:23-24 | true iff neither value is `None` and neither is the empty string |
| `GithubUrl.Unpack` | app.py:21 | a failed match gives `(None, None)`; a successful one gives both groups |
| `GithubUrl.ValidateParsedIff` | app.py:18-24 | validating the parsed pair succeeds exactly when the pattern matched, so the error branch is taken exactly on non-matching URLs |
| `GithubUrl.SubmitUrl` | app.py:46-52 | an empty URL does nothing; the "Invalid GitHub URL" error is shown iff the URL is non-empty and does not match; otherwise the loader is built for the greedy match's owner and repo |
| `GithubUrl.SubmitExample` | app.py:46-55 | `https://github.com/acme/widgets` loads owner `acme` and repo `widgets` |
| `Questions.LowerChar` | app.py:89 | ASCII upper-case letters move 32 code points up to lower case; every other character is unchanged |
| `Questions.Lower` | app.py:89 | lower-casing keeps the length and acts character by character |
| `Questions.LowerIsExitIff` | app.py:89 | `q.lower() == "exit"` holds exactly for the sixteen case variants of "exit" |
| `Questions.HandleQuestion` | app.py:87-94 | an empty question does nothing; the exit message is shown exactly for a case variant of "exit"; otherwise the question is passed on unchanged |
| `Questions.QuestionExitOrAsk` | app.py:88-94 | a non-empty question either exits or is asked verbatim, and it exits exactly when its lower-case form is "exit" |
| `Questions.QueriesIssued` | app.py:81-94 | the engine first receives the fixed test question; it then receives exactly one more query, `q` itself, iff `q` is non-empty and not the exit word |
| `Environment.FirstMissingIndex` | app.py:34-38 | every name before the returned index is set, and the name at the index, if there is one, is not set |
| `Environment.FirstMissingIndexUnique` | app.py:34-38 | those properties determine the index |
| `Environment.MissingVariable` | app.py:33-38 | no name is reported iff all three names are set; a reported name is one of them and is not set |
| `Environment.MissingVariableOrder` | app.py:34-38 | the first missing name is reported, in the order `OPENAI_API_KEY`, `GITHUB_TOKEN`, `ACTIVELOOP_TOKEN` |
| `Environment.CheckStopsIff` | app.py:33-38 | the check stops the script iff some required name is absent or empty |
| `Environment.CheckEnvironmentVariables` | app.py:33-38 | the loop reports exactly `MissingVariable`; the names it looks up are a prefix of the required list ending at the reported name, and no name after it is looked up |
| `Environment.GithubToken` | app.py:26-31 | the client is created iff `GITHUB_TOKEN` is set and non-empty, and it is created from that value |
| `Environment.GithubTokenAfterCheck` | app.py:26-41 | once the start-up check passes, creating the GitHub client cannot stop the script |

## Left out

- Streamlit calls (`st.text_input`, `st.write`, `st.error`, `st.success`, `st.spinner`, `st.title`, `st.stop`) are user-interface I/O. An error followed by `st.stop` is modelled as the name `CheckEnvironmentVariables` returns, or as `GithubToken` returning `None`; the text boxes are the inputs of `SubmitUrl` and `HandleQuestion`.
- The repository loading through `GithubClient` and `GithubRepositoryReader` (lines 41-68) is left out. That includes the extension include-list, branch `"main"` and `concurrent_requests=5`. It is network access, and its filtering and concurrency are inside a library that is not part of this model.
- `DeepLakeVectorStore`, `StorageContext`, `VectorStoreIndex`, `as_query_engine` and `query` (lines 70-94) are external embedding, LLM and vector-database services. Only the questions sent to `query` are modelled (`QueriesIssued`); the answers are not.
- `textwrap.fill` answer formatting (lines 85 and 95) is a standard-library routine with no logic of its own here.
- `nest_asyncio`, `load_dotenv` and `download_loader` (lines 1-2, 16 and 42) are process setup. The environment map stands for the state after `load_dotenv`.
- The Streamlit re-run model is left out: the script runs again top to bottom on every input change. Each function describes one pass.
- Questions.LowerChar, Questions.Lower: fold only ASCII letters (non-ASCII upper-case letters such as 'À' stay unchanged), whereas Python's `str.lower()` uses full Unicode case mapping. Only the comparison with `"exit"` depends on it. No non-ASCII character lower-cases to exactly one of the letters e, x, i or t: U+0130 becomes two characters, `i` followed by a combining dot. So the decision should agree with Python's, but that argument is not proved here.
