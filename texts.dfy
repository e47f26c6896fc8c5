/** The fixed blocks of text the alias manager writes: the import block
    for `.zshrc` and the default alias block, in the two revisions of the
    program. */
module Texts {
  /** The `.zshrc` block of the main-package revision (strings.go). */
  const ImportAlias: string :=
    "\n# This imports the aliases from alias manager\nif [ -f ~/.zsh/am/zsh_alias ]; then\n\tsource ~/.zsh/am/zsh_alias\nelse\n\tprint \"404: ~/.zsh/am/zsh_alias not found.\"\nfi"

  /** The default aliases of the main-package revision (strings.go): the
      expansions are in double quotes. */
  const DefaultAliases: string :=
    "\n# These aliases are default and can't be removed. If you want them removed, have a word with Evan\nalias ga=\"git add --all\"\nalias gc=\"git commit -m\"\nalias gp=\"git push\"\n\n# Here begins your custom aliases\n"

  /** The default aliases of the server package (server/strings.go): the
      expansions are bare. */
  const ServerDefaultAliases: string :=
    "# These are some default aliases, feel free to remove them\nalias ga=git add --all\nalias gc=git commit -m\nalias gp=git push\n\n# Here begins your custom aliases\n"
}
