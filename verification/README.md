# MRPH Global: verified model of the wallet bot, the testnet builder and the zero-height export

This project models the parts of the MRPH Global repository that carry its logic and proves what
they promise:

- **The Telegram wallet bot** (`telegram-bot/src`). `Storage.dfy` has the user store as a class: live
  records on the heap, a lazily loaded cache that is ahead of the file by unsaved entries, and the
  file. `Wizard.dfy` says what every handler does to a record, to the chain and to the chat;
  `Bot.dfy` has the handlers themselves, which read and update the store in place, and the whole
  life of the process with its restarts (`Bots.Bot.Serve`). `WizardRuns.dfy` proves what holds in
  every run of updates by all users, late button presses included. `WizardSteps.dfy` says what one
  update changes, field by field, and proves over runs that a cancelled draft is gone and that the
  wizard delivers whoever else writes to the bot.
- **Amounts, wallets, payloads** (`Amounts.dfy`, `Wallets.dfy`, `Crypto.dfy`): the printer and parser
  of token amounts, mnemonic normalisation, and the encrypted payload format.
- **The chain as the bot uses it** (`Ledger.dfy`, `History.dfy`) and **message templates**
  (`Templates.dfy`).
- **The multi-node testnet** (`Testnet.dfy`, `Ports.dfy`, `Genesis.dfy`): paths, the distribution of
  genesis transactions over a file system, ports, peers and supply.
- **The zero-height export** (`ZeroHeight.dfy`).

`Witnesses.dfy` has concrete inputs for the failures described below, and libraries that meet the laws
assumed of them. `Text.dfy`, `Sums.dfy`, `Coins.dfy` and `Wrappers.dfy` hold shared vocabulary.
`dafny verify dfyconfig.toml` checks the project.

## Reading guide

Functions say what the code computes; methods have the source's loops and updates and are proved to
compute the same; lemmas say what the repository promises. Where the source changes an object, the
model does: `Storage.UserStorage` and `Storage.UserRecord`, `Bots.Bot`, `Testnet.FileSystem`,
`Ports.NodeConfig`, `ZeroHeight.App`.

What enters as a parameter: the answers of the node and of Telegram to each update (`Wizard.Network`,
`Wizard.Telegram`), query pages, generated mnemonics, nonces and time stamps, the outcome of every
reward withdrawal, and the order in which the staking keeper iterates. AES-256-GCM, UTF-8 and key
derivation are functions with the laws of `Crypto.Cipher.Lawful` and `Wallets.Env.Lawful`, which only
the lemmas about stored secrets assume and `Witnesses.PlainEnvLawful` shows can be met. Updates are handled one at a time, as `bot.start` does.

## What turned out not to hold everywhere

- `formatAmount` with `DENOM_DECIMALS=0`, which the configuration allows: `slice(0, -0)` and
  `slice(-0)` put the whole number behind the point, so 5 and 50 base units are both shown as 0.5.
  Parsing what was printed gives the amount back exactly when there is at least one decimal
  (`Amounts.RoundTripIff`); a typed amount is stored in a form that parses again under exactly the
  same condition (`WizardRuns.TypedAmountParsesIff`), and the wizard delivers under exactly the same
  condition (`WizardRuns.WizardDeliversIff`). What a confirmation sends is right for every
  number of decimals (`WizardRuns.ConfirmFidelity`), because a stored amount that does not parse is
  refused.
- A confirmation clears the draft only after its replies. If the transfer goes out and both the
  success reply and the error reply fail, the draft stays and the button sends again
  (`WizardRuns.SecondConfirmIff`, `Witnesses.DoubleSendWitness`). Apart from such lost replies, confirmations never send more often
  than addresses were accepted (`WizardRuns.ConfirmsBounded`).
- `/import` derives the address from the text with white space collapsed but stores the text with
  its white space. The wallet unlocks to its address exactly when every run of white space was one
  space (`Wallets.ImportedConsistentIff`); otherwise it can never send (`WizardRuns.LockedOut`,
  `Witnesses.ImportWitness`).
- `decryptSecret` does not invert `encryptSecret` on the empty string (`Crypto.PayloadRoundTrip`).
- `t` does not always fill all placeholders as if at once. For values without opening braces it does
  so in every template exactly when no value has a dollar sign before one of the four characters
  that `replaceAll` interprets after it (`Templates.SimultaneousIff`, `Templates.DollarMatters`). The
  last value may contain opening braces; an earlier one that looks like a later placeholder is
  substituted again (`Templates.BracesMatter`). Closing braces and other dollar signs do no harm.
- `isSubDir` is documented as telling whether one path is a parent of the other. It also answers yes
  for equal paths, and no for files whose path continues with a name beginning with two dots
  (`Testnet.IsSubDirIff`, `Witnesses.DotDotWitness`). Neither occurs among the genesis transactions (`Testnet.OwnGentxOnly`).
- The default ports suffice for exactly 1317 nodes (`Ports.UsableIff`).
- The help text of `--starting-ip-address` describes peers at successive addresses and port 46656;
  the code gives every peer the same address and ports 26656, 26653 and so on. The model follows
  the code, as it does where `docs/TELEGRAM_BOT.md` says that the bot keeps `wallets.json` and never
  shows a mnemonic.

## Model

| member | source | states |
|---|---|---|
| Amounts.ParserExact | telegram-bot/src/chain.ts:40-55 | An input is accepted exactly when it is digits, or digits, a point or a comma, and one to D more digits, with white space around, and its value is not zero; the result is the numeral of whole * 10^D + fraction * 10^(D - number of fraction digits), and every other input is an invalid amount |
| Amounts.SeparatorsEqual | telegram-bot/src/chain.ts:41-41 | A comma is read as a point, and white space around an amount is ignored |
| Amounts.FormatCanonical | telegram-bot/src/chain.ts:32-38 | For D >= 1 the printed form of n base units has no excess zero on either side, at most D fraction digits, and denotes n |
| Amounts.FormatOfReading | telegram-bot/src/chain.ts:32-38 | For D >= 1 every canonical amount is what the printer makes of its value |
| Amounts.ParseOfFormat | telegram-bot/src/chain.ts:32-55 | For D >= 1 and n > 0 parsing the printed form of n gives n |
| Amounts.RoundTripIff | telegram-bot/src/chain.ts:32-55 | For n > 0 the printed form of n parses back to n exactly when D >= 1 |
| Amounts.FormatWithoutDecimals | telegram-bot/src/chain.ts:32-38 | For D = 0 every positive amount is printed behind "0." and does not parse |
| Amounts.NoDecimalsCounterexample | telegram-bot/src/chain.ts:32-38 | For D = 0 the amounts 5 and 50 are printed alike |
| Amounts.FormatOfParse | telegram-bot/src/chain.ts:32-55 | Printing a parsed input gives a canonical amount with the same value, and the input itself exactly when the input is canonical |
| Amounts.ShownAlikeIff | telegram-bot/src/chain.ts:32-55 | For D >= 1 two accepted inputs are shown alike exactly when their base values are equal |
| Amounts.ShownAlikeWithoutDecimalsIff | telegram-bot/src/chain.ts:32-38 | For D = 0 two positive amounts are shown alike exactly when their numerals differ only in zeros at the end |
| Amounts.ValidAddressIff | telegram-bot/src/chain.ts:57-64 | An address is valid exactly when it is the prefix followed by 20 to 90 lower-case letters and digits |
| Text.SpaceChars | telegram-bot/src/chain.ts:41-41 | The characters that trimming removes: the white space and line terminators of ECMAScript |
| Crypto.HexRoundTrip | telegram-bot/src/crypto.ts:19-32 | Hexadecimal decoding inverts encoding, and the encoding contains no colon |
| Crypto.HexOfByte | telegram-bot/src/crypto.ts:19-32 | A byte is written as its higher and its lower hexadecimal digit, in lower case, and read back from them |
| Crypto.HexValueExact | telegram-bot/src/crypto.ts:7-10 | Digits of both cases are read, each as its value, and nothing else is |
| Crypto.FromHexStops | telegram-bot/src/crypto.ts:28-31 | Reading hexadecimal stops at the first pair that is not |
| Crypto.KeyIff | telegram-bot/src/crypto.ts:5-11 | A key is accepted exactly when it is 64 hexadecimal digits of either case with white space around |
| Crypto.KeyOfHex | telegram-bot/src/crypto.ts:5-11 | The key is the 32 bytes that these digits write |
| Crypto.PayloadExact | telegram-bot/src/crypto.ts:13-20 | The payload has three parts that write nonce, tag and ciphertext under the given key, and there is one exactly when the key is valid |
| Crypto.DecryptExact | telegram-bot/src/crypto.ts:22-36 | Decryption opens the ciphertext with the nonce, tag and key given; it throws without a valid key, for an empty part, and when the library does; what follows a third colon is ignored |
| Crypto.DecryptNeedsParts | telegram-bot/src/crypto.ts:24-27 | A payload with fewer than two colons is refused |
| Crypto.PayloadRoundTrip | telegram-bot/src/crypto.ts:13-35 | For a valid key decryption returns the encrypted text exactly when it is not empty; the empty text is refused as an invalid payload |
| Wallets.CollapseFixedIff | telegram-bot/src/chain.ts:79-79 | Collapsing white space leaves exactly the single-spaced strings unchanged |
| Wallets.LowerExact | telegram-bot/src/chain.ts:79-79 | Capital letters become the small ones, the Kelvin sign becomes k, and other characters stay |
| Wallets.CollapseSpaced | telegram-bot/src/chain.ts:79-79 | Collapsing keeps the words and puts one space between any two, whatever the gaps were |
| Wallets.ImportExact | telegram-bot/src/chain.ts:78-89 | Words with any gaps and white space around are accepted exactly when there are 12 or 24 and the library derives an address from the lower-case words with single spaces, and then with this address |
| Wallets.UnlockIff | telegram-bot/src/chain.ts:91-94 | A wallet unlocks to the address derived from what its payload decrypts to under the configured key |
| Wallets.CreatedConsistent | telegram-bot/src/bot.ts:322-327 | A created wallet has the generated address and time, its payload decrypts to the generated mnemonic, and the key signs for the address |
| Wallets.ImportedConsistentIff | telegram-bot/src/bot.ts:131-136 | An imported wallet has the derived address and the time, its payload decrypts to the trimmed lower-case text, and the key signs for the address exactly when that text is single-spaced; otherwise it does not unlock |
| Storage.UserRecord.FromSaved | telegram-bot/src/storage.ts:41-43 | A record read back says what was saved, although undefined properties are gone |
| Storage.UserRecord.Assign | telegram-bot/src/storage.ts:99-99 | Exactly the properties present in the patch change, undefined ones included |
| Storage.ParseUsers | telegram-bot/src/storage.ts:41-43 | Reading the file makes one new record per user, with the saved content |
| Storage.UserStorage.constructor | telegram-bot/src/storage.ts:28-34 | A new store says what the file says; a user without a record reads as one with the default language and nothing else |
| Storage.UserStorage.Restart | telegram-bot/src/index.ts:4-11 | Losing the cache changes no record that can be read |
| Storage.UserStorage.Load | telegram-bot/src/storage.ts:36-48 | Loading keeps the file and every record; a loaded cache is reused |
| Storage.UserStorage.Save | telegram-bot/src/storage.ts:50-54 | Afterwards cache and file say the same |
| Storage.UserStorage.Ensure | telegram-bot/src/storage.ts:56-62 | The user's live record; an entry that is created and not saved changes nothing that can be read |
| Storage.UserStorage.GetWallet | telegram-bot/src/storage.ts:64-67 | The user's wallet, in the total map of users |
| Storage.UserStorage.SetWallet | telegram-bot/src/storage.ts:69-75 | Exactly this user's wallet changes, in cache and file |
| Storage.UserStorage.GetLang | telegram-bot/src/storage.ts:77-80 | The user's language or the default |
| Storage.UserStorage.SetLang | telegram-bot/src/storage.ts:82-88 | Exactly this user's language changes, in cache and file |
| Storage.UserStorage.GetRecord | telegram-bot/src/storage.ts:90-94 | The live record, which says what the total map says |
| Storage.UserStorage.UpdateRecord | telegram-bot/src/storage.ts:96-103 | Exactly the patched fields of this user change, in cache and file; the returned record is the live one |
| Storage.UserStorage.ClearSendDraft | telegram-bot/src/storage.ts:105-107 | Exactly this user's draft and prompt are cleared |
| Storage.MigrateLegacyWallets | telegram-bot/src/storage.ts:111-128 | Every user without a wallet gets the first legacy one there is, and nothing else changes |
| Storage.LegacyFirst | telegram-bot/src/storage.ts:119-123 | A legacy user has the wallet of the first entry |
| Storage.LegacyEntry | telegram-bot/src/storage.ts:119-123 | Only users with an entry have one |
| Storage.MigrationAdopts | telegram-bot/src/storage.ts:111-128 | Migration gives every legacy user without a wallet the legacy one, keeps every other wallet, field and user, and is idempotent |
| Ledgers.TransferSafe | telegram-bot/src/chain.ts:274-282 | A transfer that passed the funds check overdraws nobody and keeps the total; the sender loses amount and fee, the recipient gains the amount, the collector the fee |
| Wizard.PaidFeeIsNumeral | telegram-bot/src/chain.ts:274-295 | The fee that is checked is the fee that is paid |
| WizardRuns.WizardOkKept | telegram-bot/src/bot.ts:163-297 | Every update keeps: a prompt or draft has a wallet, an address prompt has no draft, an amount prompt has one, a draft has a valid address, and a draft without amount is being asked for one |
| WizardRuns.RunKeepsWizardOk | telegram-bot/src/bot.ts:163-297 | The same for each user over every run, whatever state the others are in |
| WizardRuns.RunKeepsLanguage | telegram-bot/src/bot.ts:71-78 | A record that has a language keeps having one, so `/start` never detects one |
| WizardRuns.OfferedParses | telegram-bot/src/keyboards.ts:91-99 | The offered amounts parse, 0.1 exactly when there is at least one decimal |
| WizardRuns.RunKeepsAmounts | telegram-bot/src/bot.ts:194-291 | With at least one decimal and offered picks a user's stored amount parses, over every run |
| WizardRuns.TypedAmountParsesIff | telegram-bot/src/bot.ts:279-291 | An accepted typed amount is stored so that it parses again exactly when there is at least one decimal |
| WizardRuns.ConfirmFidelity | telegram-bot/src/bot.ts:194-296 | In every run from any state, a confirmation that broadcasts sends from the user's own wallet to the address accepted last exactly the value of the amount accepted last after it; a draft from before the run counts as accepted first |
| WizardRuns.LastAddressExact | telegram-bot/src/bot.ts:256-277 | What was accepted last is the address of the last accepted text, without an amount while none follows |
| WizardRuns.LastAmountExact | telegram-bot/src/bot.ts:194-291 | and then the amount of the last accepted text or button after it |
| WizardRuns.SendIff | telegram-bot/src/bot.ts:416-459 | A send broadcasts exactly when the amount parses, the node answers, the balance covers amount and fee, the user could be told, and the node accepts the unlocked wallet |
| WizardRuns.SendFidelity | telegram-bot/src/bot.ts:423-445 | What a send broadcasts is its recipient and exactly the value of its amount, from a wallet that unlocks to its address |
| WizardRuns.WizardDeliversIff | telegram-bot/src/bot.ts:222-296 | The wizard from start to confirmation, with accepted inputs, funds and answers, sends exactly when there is at least one decimal, and then this amount to this address |
| WizardRuns.QuickSendFidelity | telegram-bot/src/bot.ts:398-414 | Only confirmations and quick sends broadcast; a quick send carries the typed valid address and the value of the typed amount |
| WizardRuns.ConfirmsBounded | telegram-bot/src/bot.ts:222-277 | In every run a user's confirmations broadcast at most as often as addresses were accepted, plus drafts there were and confirmations whose replies were all lost |
| WizardRuns.SecondConfirmIff | telegram-bot/src/bot.ts:222-234 | Confirming again sends again exactly when both replies of the first confirmation were lost |
| WizardRuns.WalletsWriteOnce | telegram-bot/src/bot.ts:126-136 | No run replaces or removes a wallet |
| WizardRuns.OthersUntouched | telegram-bot/src/storage.ts:96-103 | A user's record is left alone by other users' updates |
| WizardRuns.LedgerSafe | telegram-bot/src/bot.ts:430-445 | In every run the ledger is the initial one with exactly the logged transfers settled, nobody is overdrawn, and the total is constant |
| WizardRuns.ReactionFunded | telegram-bot/src/bot.ts:430-445 | One update makes at most one transfer, and the sender's balance covers amount and fee |
| WizardRuns.WalletsStayConsistent | telegram-bot/src/bot.ts:118-136 | In every run a user whose imports are single-spaced keeps a wallet that unlocks to its address |
| WizardRuns.LockedOut | telegram-bot/src/chain.ts:91-94 | A wallet that does not unlock to its address never sends in any run |
| WizardSteps.SendExact | telegram-bot/src/bot.ts:416-459 | Each reply of a send is attempted exactly under its condition, a send throws exactly under its condition, it broadcasts exactly when parsed, funded, announced and accepted, and the ledger changes by exactly that transfer |
| WizardSteps.ShortfallFigures | telegram-bot/src/bot.ts:431-441 | With at least one decimal the figures of the funds message read as the balance and as amount plus fee |
| WizardSteps.DraftAfter | telegram-bot/src/bot.ts:163-296 | The draft after any update: when it appears, gets an amount, and goes; a cancellation always removes it |
| WizardSteps.PromptAfter | telegram-bot/src/bot.ts:163-296 | The prompt after any update |
| WizardSteps.LanguageAfter | telegram-bot/src/bot.ts:71-177 | The language changes by choice, or by detection where there is none |
| WizardSteps.WalletAfter | telegram-bot/src/bot.ts:118-144 | A wallet that is there stays; otherwise exactly a creation or import with a usable key gives one, with its address, time and payload |
| WizardSteps.LedgerAfter | telegram-bot/src/bot.ts:222-414 | Only complete confirmations and quick sends to valid addresses touch the ledger |
| WizardSteps.WizardReplies | telegram-bot/src/bot.ts:163-414 | The replies of the wizard and of quick sends |
| WizardSteps.WalletReplies | telegram-bot/src/bot.ts:118-339 | The replies to creations and imports, as far as they are attempted |
| WizardSteps.MenuReplies | telegram-bot/src/bot.ts:71-192 | The replies of the screens; the mnemonic is shown exactly after a confirmation with a wallet that decrypts |
| WizardSteps.ConfirmSendsIff | telegram-bot/src/bot.ts:222-234 | A confirmation broadcasts exactly with a wallet, a complete draft that parses, funds, an answered press, a told user, and a node that accepts |
| WizardSteps.QuickSendsIff | telegram-bot/src/bot.ts:398-414 | A quick send broadcasts exactly with a wallet, a valid address, an amount that parses, funds, a told user, and a node that accepts; it leaves the record alone |
| WizardSteps.RunOfOne | telegram-bot/src/bot.ts:68-309 | One update is answered from its user's record, which alone it changes, and is logged |
| WizardSteps.CancelledNeverSent | telegram-bot/src/bot.ts:163-168 | In every run a confirmation after a cancellation broadcasts only if an address of that user was accepted in between |
| WizardSteps.CancelSilences | telegram-bot/src/bot.ts:163-297 | In every run, from a cancellation to the next start of a send, the user's texts, amount buttons and confirmations are not answered and change nothing |
| WizardSteps.RunDeliversIff | telegram-bot/src/bot.ts:222-296 | In every run, start, valid address, amount that parses and confirmation, with any updates of other users in between, send exactly when there is at least one decimal, and then this amount to this address |
| WizardSteps.RunDeliversPickIff | telegram-bot/src/bot.ts:194-277 | The same with an amount button sends exactly when the button's amount parses |
| Bots.Bot.ExecuteSend | telegram-bot/src/bot.ts:416-459 | Ledger, replies and exceptions of a send, case by case |
| Bots.Bot.HandleSendStart | telegram-bot/src/bot.ts:383-396 | Starting to send drops the draft and asks for an address, if there is a wallet |
| Bots.Bot.HandlePickAmount | telegram-bot/src/bot.ts:194-220 | A picked amount is stored with the draft's address; without a draft nothing happens |
| Bots.Bot.HandleConfirm | telegram-bot/src/bot.ts:222-234 | A complete draft is sent and, unless the send threw, cleared |
| Bots.Bot.HandleMessage | telegram-bot/src/bot.ts:236-297 | A text is taken as address or amount as the record awaits |
| Bots.Bot.HandleQuickSend | telegram-bot/src/bot.ts:398-414 | A quick send leaves the record alone |
| Bots.Bot.HandleCreateWallet | telegram-bot/src/bot.ts:311-339 | A wallet is created only where there is none; the four replies are attempted up to the first that fails |
| Bots.Bot.HandleImport | telegram-bot/src/bot.ts:118-144 | A wallet is imported only where there is none; a lost success reply is followed by the failure reply although the wallet is stored |
| Bots.Bot.HandleCancel | telegram-bot/src/bot.ts:163-168 | Cancelling clears exactly this user's draft and prompt, in cache and file |
| Bots.Bot.HandleStart | telegram-bot/src/bot.ts:71-78 | `/start` sets a detected language only where there is none, and greets |
| Bots.Bot.HandleLanguage | telegram-bot/src/bot.ts:170-177 | A chosen language is stored; the menu follows an edit that succeeds |
| Bots.Bot.HandleBrowse | telegram-bot/src/bot.ts:79-192 | The screens that only read reply as wallet, node and decryption allow, and change nothing |
| Bots.Bot.Dispatch | telegram-bot/src/bot.ts:68-297 | Every update reaches its handler |
| Bots.Bot.Handle | telegram-bot/src/bot.ts:68-309 | One update changes the stored users, the ledger and the chat as the wizard's step says |
| Bots.Bot.Restart | telegram-bot/src/index.ts:4-11 | Restarting any number of times, with its migrations, changes no record that can be read |
| Bots.Bot.Serve | telegram-bot/src/index.ts:4-11 | Every update is handled, in order; however often the bot is restarted between them, it answers and ends as one that is never restarted, works on a plain map and migrates once |
| History.TransferExact | telegram-bot/src/chain.ts:154-186 | A message is a transfer exactly when its type contains MsgSend, it has a coin of the denomination, both ends are given and one is the account; it is outgoing exactly when the account sends, the counterparty is the other end, the amount that of the first such coin |
| History.ParseTransfer | telegram-bot/src/chain.ts:154-186 | The first message that is a transfer of the account decides, and there is a result exactly when there is such a message |
| History.ParseTransferFromTx | telegram-bot/src/chain.ts:154-186 | The loop finds that message |
| History.EntryExact | telegram-bot/src/chain.ts:154-225 | A transaction has an entry exactly when one of its messages is a transfer; the entry is the first such message's under the transaction's hash |
| History.ListedExact | telegram-bot/src/chain.ts:188-225 | The entries belong to transactions at increasing positions, each the first of its hash that has an entry |
| History.ListedComplete | telegram-bot/src/chain.ts:188-225 | Every transaction that has an entry is represented |
| History.ListedDistinct | telegram-bot/src/chain.ts:188-225 | No hash is listed twice |
| History.ReadableAll | telegram-bot/src/chain.ts:212-225 | A page whose items can all be read is worked in to the end |
| History.ReadableExact | telegram-bot/src/chain.ts:190-228 | A page is worked in up to the first item that is malformed and not known already |
| History.AddPage | telegram-bot/src/chain.ts:212-225 | The page loop extends the list by what can be read of the page: up to the first unknown item that throws |
| History.GetRecentTxs | telegram-bot/src/chain.ts:188-264 | The answer is the first entries of what can be read of both pages together, whether or not the second query was made, and it is made exactly when the first page left room; no hash occurs twice, and each entry tells direction, counterparty and amount of a message of a page's transaction with its hash |
| Templates.SimultaneousIff | telegram-bot/src/i18n/locales.ts:444-452 | For distinct brace-free keys and values without opening braces, the last one excepted, the loop fills the placeholders of every template as if at once exactly when no value has a dollar pattern |
| Templates.SequentialIsSimultaneous | telegram-bot/src/i18n/locales.ts:444-452 | The same direction for one template |
| Templates.ExpandFixedIff | telegram-bot/src/i18n/locales.ts:448-448 | A lone placeholder is replaced by the value itself exactly when the value has no dollar pattern |
| Templates.OrderIrrelevant | telegram-bot/src/i18n/locales.ts:444-452 | Without dollar patterns the order of the entries does not matter |
| Templates.BracesMatter | telegram-bot/src/i18n/locales.ts:447-449 | A value that looks like a later placeholder makes the order visible |
| Templates.DollarMatters | telegram-bot/src/i18n/locales.ts:448-448 | Two dollar signs are shown as one |
| Templates.ReplaceBetween | telegram-bot/src/i18n/locales.ts:448-448 | A placeholder between two texts is replaced by the expansion of its value there |
| Templates.DollarForms | telegram-bot/src/i18n/locales.ts:448-448 | The four dollar patterns are shown as a dollar sign, the placeholder, the text before and the text after |
| Templates.T | telegram-bot/src/i18n/locales.ts:444-452 | The template of the language, else the English one, else the key, with the variables filled in; simultaneous substitution without dollar patterns |
| Testnet.IsSubDirIff | cmd/mrphglobald/cmd/testnet_multi_node.go:508-528 | The test holds exactly for equal paths and for paths below the directory that do not continue with two dots |
| Testnet.OwnGentxOnly | cmd/mrphglobald/cmd/testnet_multi_node.go:304-328 | A genesis transaction is recognised as being in place exactly in its own node's directory |
| Testnet.FileSystem.WriteFile | cmd/mrphglobald/cmd/testnet_multi_node.go:349-359 | The directory and its parents exist afterwards and the file has the contents |
| Testnet.FileSystem.CopyFile | cmd/mrphglobald/cmd/testnet_multi_node.go:471-505 | A copy under the source's name, an error without source or directory; copying a file onto itself empties it |
| Testnet.WriteGentxs | cmd/mrphglobald/cmd/testnet_multi_node.go:304-308 | Every node's transaction is in its own directory |
| Testnet.GentxPath | cmd/mrphglobald/cmd/testnet_multi_node.go:304-321 | Where each transaction is placed, written out |
| Testnet.DistributeGentxs | cmd/mrphglobald/cmd/testnet_multi_node.go:304-334 | Every node's directory has the transactions of all nodes, and no other file changes |
| Testnet.GentxDirHoldsExactly | cmd/mrphglobald/cmd/testnet_multi_node.go:318-334 | A directory that was empty holds exactly the n transactions |
| Ports.UsableIff | cmd/mrphglobald/cmd/testnet_multi_node.go:117-452 | All ports of n nodes are valid and pairwise different exactly when n <= 1317 |
| Ports.DefaultPorts | cmd/mrphglobald/cmd/testnet_multi_node.go:116-123 | The default RPC ports of all nodes |
| Ports.InitNodes | cmd/mrphglobald/cmd/testnet_multi_node.go:194-313 | The peers are joined by commas; each node's app file has its gRPC and API ports |
| Ports.CollectConfigs | cmd/mrphglobald/cmd/testnet_multi_node.go:425-454 | Although one object is reused, each node's file has that node's values |
| Ports.JoinedSplits | cmd/mrphglobald/cmd/testnet_multi_node.go:215-221 | Splitting the joined peers gives the peers back |
| Ports.ConfigureTestnet | cmd/mrphglobald/cmd/testnet_multi_node.go:194-454 | Every configuration announces each node at the port that node listens on; all ports and addresses, written out |
| Genesis.InitGenFiles | cmd/mrphglobald/cmd/testnet_multi_node.go:361-408 | Every node gets the same document, whose supply is what the given balances hold, however the bank module sorts them |
| Genesis.HeldPermuted | cmd/mrphglobald/cmd/testnet_multi_node.go:384-387 | What balances hold does not depend on their order |
| Genesis.NodeSupply | cmd/mrphglobald/cmd/testnet_multi_node.go:255-262 | The balances of n nodes hold n times 10^9 test tokens and 5 * 10^8 stake |
| ZeroHeight.WithdrawnFair | app/export.go:76-107 | A withdrawal that moves at most what is outstanding creates and destroys nothing |
| ZeroHeight.WithdrawnExact | app/export.go:82-106 | A covered withdrawal moves its coins to accounts and its remainder to the pool, out of what is outstanding for that validator; any other one changes nothing |
| ZeroHeight.AllPaidOut | app/export.go:76-107 | When everything claimed is outstanding, all of it is paid and no longer outstanding |
| ZeroHeight.DonatedFair | app/export.go:125-139 | Neither does a donation |
| ZeroHeight.PreparedConserves | app/export.go:76-168 | Whichever withdrawals fail, accounts, community pool and outstanding rewards together stay the same, accounts and pool lose nothing, and the validators' outstanding rewards end at zero |
| ZeroHeight.WithdrawnInTwo | app/export.go:76-107 | The withdrawals are made in the order of the list |
| ZeroHeight.PreparedPaysOut | app/export.go:76-168 | When everything claimed is outstanding, accounts gain exactly the claimed coins and the community pool gets all the rest |
| ZeroHeight.LoopsIdempotent | app/export.go:175-254 | Repeating the explicit loops changes nothing |
| ZeroHeight.App.Withdraw | app/export.go:82-106 | A covered withdrawal is booked, any other one changes nothing |
| ZeroHeight.App.WithdrawAll | app/export.go:76-107 | All commissions, then all delegation rewards, in order |
| ZeroHeight.App.ReinitValidator | app/export.go:125-142 | The outstanding rewards go to the community pool |
| ZeroHeight.App.ReinitValidators | app/export.go:119-146 | The same for all validators |
| ZeroHeight.App.ReinitDelegations | app/export.go:148-168 | All delegations, and only they, start at the context's height |
| ZeroHeight.App.PrepDistribution | app/export.go:74-171 | The books after all passes; slash events are gone, delegations start at height 0, the context's height is restored |
| ZeroHeight.ZeroCreationHeights | app/export.go:177-179 | Every entry's creation height is 0 and the rest is kept |
| ZeroHeight.App.ResetRedelegations | app/export.go:175-188 | Every redelegation is reset |
| ZeroHeight.App.ResetUnbondings | app/export.go:190-203 | Every unbonding delegation is reset |
| ZeroHeight.App.ReopenValidators | app/export.go:205-230 | A validator is jailed exactly if it was or a non-empty allow list omits it; unbonding heights are 0 and the rest is kept |
| ZeroHeight.App.RestartSigningInfos | app/export.go:244-254 | Every signing info starts at height 0 |
| ZeroHeight.App.PrepStakingAndSlashing | app/export.go:173-254 | All staking resets, and the slashing reset unless the iterator fails to close |
| ZeroHeight.App.PrepForZeroHeight | app/export.go:56-256 | The whole preparation, ending before the slashing reset when the iterator fails to close, or nothing at all when the allow list has a bad address |
| Witnesses.PlainEnvLawful | telegram-bot/src/crypto.ts:13-35 | There are libraries that meet the laws assumed of them |
| Witnesses.DoubleSendWitness | telegram-bot/src/bot.ts:222-234 | A wizard that sends one token, and sends it again after both replies were lost |
| Witnesses.ImportWitness | telegram-bot/src/bot.ts:131-136 | An accepted twelve-word import with a doubled space whose wallet does not unlock |
| Witnesses.DotDotWitness | cmd/mrphglobald/cmd/testnet_multi_node.go:508-528 | A file below a directory that the test does not recognise |

## Left out

- Reply texts with their figures, keyboards, menu labels, QR codes and explorer links: replies are named by their template, and a text that is a menu label arrives as the update it stands for.
- Bots.Bot.HandleBrowse: the contents of balance, history, network and channel screens; the history itself is `History`.
- Bots.Bot.HandleCreateWallet: a callback answer that fails before the handler starts is an update that does not arrive.
- Splitting a `/send` command into words: the words arrive as the fields of a quick send.
- Ledgers.TransferSafe: transfers by others and deposits between updates; failed transactions leave the ledger unchanged, although a chain may charge their fee.
- Storage.UserStorage.Load: a file that is valid JSON of another shape, failing writes, and user ids that are names of built-in object properties.
- Overlapping updates: handlers never interleave, as with the library's sequential polling.
- Wallets.ImportedConsistentIff: lower-casing covers the characters whose lower case is an ASCII letter, which include the Kelvin sign; with any other letter outside ASCII no mnemonic is accepted.
- Strings are sequences of Unicode scalar values; surrogate halves do not occur.
- History.GetRecentTxs: a page entry that is not an object at all.
- The locale tables, `detectLang` and the configuration's environment variables.
- Testnet.DistributeGentxs: key generation, keyrings, signing and the module that collects genesis transactions; node ids are taken to be distinct and directories to be absolute and clean.
- Ports.UsableIff: a port list given on the command line, which replaces the RPC ports only.
- ZeroHeight.App.Withdraw: all accounts together are one holder, and reward periods are the SDK's.
- ZeroHeight.App.PrepForZeroHeight: the staking keeper's validator set update after the loops, whose code is not in the repository, and store errors, which end the process.
- `ExportAppStateAndValidators`, the `x/mrphglobal` module, IBC wiring, single-node testnet and scripts: thin calls into libraries, or empty parameters.
