/** Facts that relate the two commands. */
module Commands {
  import RepositoryCommand
  import ServiceCommand

  /** Services and repositories of one application never share a default
      namespace, whatever the root namespaces. */
  lemma DefaultNamespacesDiffer(serviceRoot: string, repositoryRoot: string)
    ensures ServiceCommand.DefaultNamespace(serviceRoot) != RepositoryCommand.DefaultNamespace(repositoryRoot)
  {
    ServiceCommand.DefaultNamespaceSegment(serviceRoot);
    RepositoryCommand.DefaultNamespaceSegment(repositoryRoot);
  }
}
